/** When decoding restores what was encoded: for every template that fits, and for exactly which values there is one. */
module AbiRoundTrip {
  import opened Numbers
  import opened AbiParam
  import opened AbiEncoder
  import AbiLayout
  import opened AbiDecoder

  /** The template `t` can take the value `p`: same types, and array templates with at least one element and not too many. */
  predicate Fits(t: Param, p: Param)
    decreases p, 1
  {
    match p
    case Word(k, v) => t.Word? && t.kind == k && ValidKind(k) && v < Limit(k)
    case FixedBytes(n, d) => t.FixedBytes? && t.n == n == |d| <= 32 && |t.data| <= n
    case Bytes(d) => t.Bytes? && |d| < SIZE_T_COUNT
    case String(d) => t.String? && |d| < SIZE_T_COUNT
    case FixedArray(es) => t.FixedArray? && !IsDynamic(t) && !IsDynamic(p) && AllFit(t.elems, es)
    case Array(es) => t.Array? && t.elems != [] && |t.elems| <= |es| < SIZE_T_COUNT && AllFit(Grown(t.elems, |es|), es)
    case Tuple(es) => t.Tuple? && AllFit(t.elems, es)
  }

  predicate AllFit(ts: seq<Param>, ps: seq<Param>)
    decreases ps, 0
  {
    if ps == [] then ts == [] else ts != [] && Fits(ts[0], ps[0]) && AllFit(ts[1..], ps[1..])
  }

  /** `x` lies in `enc` at `off`. */
  ghost predicate Lies(x: seq<byte>, enc: seq<byte>, off: nat) {
    off + |x| <= |enc| && enc[off..off + |x|] == x
  }

  lemma LiesApart(x: seq<byte>, y: seq<byte>, enc: seq<byte>, off: nat)
    requires Lies(x + y, enc, off)
    ensures Lies(x, enc, off) && Lies(y, enc, off + |x|)
  {
    var e := enc[off..off + |x + y|];
    assert e[..|x|] == x && e[|x|..] == y;
    assert enc[off..off + |x|] == e[..|x|];
    assert enc[off + |x|..off + |x| + |y|] == e[|x|..];
  }

  lemma FitsKinds(t: Param, p: Param)
    requires Fits(t, p)
    ensures IsDynamic(t) == IsDynamic(p) && (IsDynamic(p) <==> !InHead(p))
  {
  }

  lemma WordRead(v: nat, enc: seq<byte>, off: nat)
    requires v < Pow(256, 32) && Lies(WordBytes(v), enc, off)
    ensures ReadWord(enc, off) == Some(v)
  {
    hide Pow, Digits, Value;
    ValueOfDigits(v, 32, 256);
  }

  lemma AnyWordRead(v: nat, enc: seq<byte>, off: nat)
    requires Lies(WordBytes(v), enc, off)
    ensures ReadWord(enc, off).Some?
  {
  }

  /** Every number class and every size_t fits in a word. */
  lemma WordHolds(bits: nat)
    requires bits <= 256
    ensures Pow(2, bits) <= Pow(256, 32) && 2 <= Pow(256, 32) && SIZE_T_COUNT <= Pow(256, 32)
  {
    BytesAreBits(32);
    PowMonotone(2, bits, 256);
    PowMonotone(2, 1, 256);
    PowEight();
    PowMonotone(256, 8, 32);
  }

  lemma CastKeeps(k: WordKind, v: nat)
    requires ValidKind(k) && v < Limit(k)
    ensures v < Pow(256, 32) && Cast(k, v) == v
  {
    hide Pow, Rem, Quot;
    var bits := if k.UInt? then k.bits else 160;
    WordHolds(bits);
    if !k.Bool? {
      QuotUnique(0, v, Pow(2, bits));
    }
  }

  lemma SetIsWhole(ps: seq<Param>)
    ensures var n := |EncodedSet(ps)|; Padded(n) == n && Padded(32 + n) == 32 + n
  {
    hide EncodedSet, Whole, Padded;
    AbiLayout.SizeIsExactWhenTight(Tuple(ps));
    var n := |EncodedSet(ps)|;
    OneWhole();
    WholeSum(32, n);
    PaddedWhole(n);
    PaddedWhole(32 + n);
  }

  // ------------------------------------------------------------------ restoring

  /** A template that fits is filled with the value that was encoded, and the offset stops right behind it. */
  lemma {:induction false} Restores(t: Param, p: Param, enc: seq<byte>, off: nat)
    requires Fits(t, p) && Lies(Encoded(p), enc, off)
    ensures Decoded(t, enc, off) == Got((p, off + |Encoded(p)|))
    decreases p, 1
  {
    hide WordBytes, Pow, Cast, Limit, ReadWord, EncodedSet, DecodedSet, Counted, Grown, Lies, AllFit;
    hide RightPadded, DecodedBytes, Padded;
    match p
    case Word(k, v) =>
      CastKeeps(k, v);
      WordRead(v, enc, off);
    case FixedBytes(n, d) =>
      FixedBytesRestore(d, enc, off);
      assert d + [] == d;
    case Bytes(d) =>
      BytesRestore(d, enc, off);
    case String(d) =>
      BytesRestore(d, enc, off);
    case Tuple(es) =>
      SetRestores(t.elems, es, enc, off);
    case FixedArray(es) =>
      SetRestores(t.elems, es, enc, off);
      SetIsWhole(es);
    case Array(es) =>
      WordHolds(0);
      LiesApart(WordBytes(|es|), EncodedSet(es), enc, off);
      WordRead(|es|, enc, off);
      FittingGrowth(t.elems, es, enc, off);
      SetRestores(Grown(t.elems, |es|), es, enc, off + 32);
      SetIsWhole(es);
  }

  /** A template that fits grows to the number of elements. */
  lemma FittingGrowth(ts: seq<Param>, es: seq<Param>, enc: seq<byte>, off: nat)
    requires ts != [] && |ts| <= |es| < SIZE_T_COUNT && ReadWord(enc, off) == Some(|es|)
    requires AllFit(Grown(ts, |es|), es)
    ensures Counted(ts, enc, off) == Got(Grown(ts, |es|))
  {
    hide Made, ReadWord, AllFit;
    FitLengths(Grown(ts, |es|), es);
  }

  lemma FixedBytesRestore(d: seq<byte>, enc: seq<byte>, off: nat)
    requires Lies(RightPadded(d), enc, off)
    ensures |enc| >= off + |d| && enc[off..off + |d|] == d
  {
    LiesApart(d, RightPadded(d)[|d|..], enc, off);
  }

  lemma BytesRestore(d: seq<byte>, enc: seq<byte>, off: nat)
    requires |d| < SIZE_T_COUNT && Lies(WordBytes(|d|) + RightPadded(d), enc, off)
    ensures DecodedBytes(enc, off) == Got((d, off + |WordBytes(|d|) + RightPadded(d)|))
  {
    hide WordBytes, RightPadded, ReadWord, Lies, Padded, Pow;
    LiesApart(WordBytes(|d|), RightPadded(d), enc, off);
    WordHolds(0);
    WordRead(|d|, enc, off);
    FixedBytesRestore(d, enc, off + 32);
    PaddedPlusWord(|d|);
  }

  lemma PaddedPlusWord(n: nat)
    ensures Padded(32 + n) == 32 + Padded(n)
  {
  }

  /** What the first pass leaves: static members filled, dynamic ones as in the template. */
  ghost function Mixed(ts: seq<Param>, ps: seq<Param>): (r: seq<Param>)
    requires |ts| == |ps|
    ensures |r| == |ts|
  {
    if ps == [] then [] else [if IsDynamic(ts[0]) then ts[0] else ps[0]] + Mixed(ts[1..], ps[1..])
  }

  lemma {:induction false} FitLengths(ts: seq<Param>, ps: seq<Param>)
    requires AllFit(ts, ps)
    ensures |ts| == |ps|
    decreases |ps|
  {
    if ps != [] {
      FitLengths(ts[1..], ps[1..]);
    }
  }

  lemma {:induction false} SetRestores(ts: seq<Param>, ps: seq<Param>, enc: seq<byte>, off: nat)
    requires AllFit(ts, ps) && Lies(EncodedSet(ps), enc, off)
    ensures DecodedSet(ts, enc, off) == Got((ps, off + |EncodedSet(ps)|))
    decreases ps, 3
  {
    hide Heads, Tails, HeadSize, DecodedHeads, DecodedTails, AllFit, Lies, Mixed;
    FitLengths(ts, ps);
    var heads := Heads(ps, HeadSize(ps));
    LiesApart(heads, Tails(ps), enc, off);
    HeadsRestore(ts, ps, HeadSize(ps), enc, off);
    TailsRestore(ts, ps, enc, off + |heads|);
  }

  lemma {:induction false} HeadsRestore(ts: seq<Param>, ps: seq<Param>, offset: nat, enc: seq<byte>, off: nat)
    requires AllFit(ts, ps) && |ts| == |ps| && Lies(Heads(ps, offset), enc, off)
    ensures DecodedHeads(ts, enc, off) == Got((Mixed(ts, ps), off + |Heads(ps, offset)|))
    decreases ps, 2
  {
    hide Encoded, WordBytes, Decoded, IsDynamic, InHead, Fits, ReadWord, Lies, Size;
    if ps != [] {
      FitsKinds(ts[0], ps[0]);
      if InHead(ps[0]) {
        LiesApart(Encoded(ps[0]), Heads(ps[1..], offset), enc, off);
        Restores(ts[0], ps[0], enc, off);
        HeadsRestore(ts[1..], ps[1..], offset, enc, off + |Encoded(ps[0])|);
      } else {
        LiesApart(WordBytes(offset), Heads(ps[1..], offset + Size(ps[0])), enc, off);
        AnyWordRead(offset, enc, off);
        HeadsRestore(ts[1..], ps[1..], offset + Size(ps[0]), enc, off + 32);
      }
    }
  }

  lemma {:induction false} TailsRestore(ts: seq<Param>, ps: seq<Param>, enc: seq<byte>, off: nat)
    requires AllFit(ts, ps) && |ts| == |ps| && Lies(Tails(ps), enc, off)
    ensures DecodedTails(ts, Mixed(ts, ps), enc, off) == Got((ps, off + |Tails(ps)|))
    decreases ps, 2
  {
    hide Encoded, Decoded, IsDynamic, InHead, Fits, Lies;
    if ps != [] {
      FitsKinds(ts[0], ps[0]);
      var mixed := Mixed(ts, ps);
      assert mixed[1..] == Mixed(ts[1..], ps[1..]);
      assert [ps[0]] + ps[1..] == ps;
      if InHead(ps[0]) {
        assert [] + Tails(ps[1..]) == Tails(ps[1..]);
        TailsRestore(ts[1..], ps[1..], enc, off);
      } else {
        LiesApart(Encoded(ps[0]), Tails(ps[1..]), enc, off);
        Restores(ts[0], ps[0], enc, off);
        TailsRestore(ts[1..], ps[1..], enc, off + |Encoded(ps[0])|);
      }
    }
  }

  // ----------------------------------------------------- exactly which values decode

  /** How far decoding moves when it returns `p`: a dynamic fixed array also takes the length word that nobody wrote. */
  function Used(p: Param): nat
    decreases p, 1
  {
    match p
    case Word(_, _) => 32
    case FixedBytes(n, _) => Padded(n)
    case Bytes(d) => 32 + Padded(|d|)
    case String(d) => 32 + Padded(|d|)
    case FixedArray(es) => (if IsDynamic(p) then 32 else 0) + UsedSet(es)
    case Array(es) => 32 + UsedSet(es)
    case Tuple(es) => UsedSet(es)
  }

  function UsedSet(ps: seq<Param>): nat
    decreases ps, 0
  {
    if ps == [] then 0 else (if IsDynamic(ps[0]) then 32 else 0) + Used(ps[0]) + UsedSet(ps[1..])
  }

  lemma {:induction false} UsedWhole(p: Param)
    ensures Whole(Used(p))
    decreases p, 1
  {
    hide Whole, Padded, UsedSet, IsDynamic;
    OneWhole();
    match p
    case Word(_, _) =>
    case FixedBytes(n, _) => PaddedWhole(n);
    case Bytes(d) => PaddedWhole(|d|); WholeSum(32, Padded(|d|));
    case String(d) => PaddedWhole(|d|); WholeSum(32, Padded(|d|));
    case FixedArray(es) => UsedSetWhole(es);
    case Array(es) => UsedSetWhole(es);
    case Tuple(es) => UsedSetWhole(es);
  }

  lemma {:induction false} UsedSetWhole(ps: seq<Param>)
    ensures Whole(UsedSet(ps)) && Whole(32 + UsedSet(ps))
    decreases ps, 0
  {
    hide Whole, Used, IsDynamic;
    OneWhole();
    if ps != [] {
      UsedWhole(ps[0]);
      UsedSetWhole(ps[1..]);
      WholeSum(Used(ps[0]), UsedSet(ps[1..]));
      WholeSum(32, Used(ps[0]) + UsedSet(ps[1..]));
    }
    WholeSum(32, UsedSet(ps));
  }

  lemma UsedSetPadded(ps: seq<Param>)
    ensures Padded(UsedSet(ps)) == UsedSet(ps) && Padded(32 + UsedSet(ps)) == 32 + UsedSet(ps)
  {
    hide UsedSet, Whole, Padded;
    UsedSetWhole(ps);
    PaddedWhole(UsedSet(ps));
    PaddedWhole(32 + UsedSet(ps));
  }

  /** No array inside is empty. */
  predicate NoEmptyArrays(p: Param)
    decreases p, 1
  {
    (p.Array? ==> p.elems != []) && (HasElems(p) ==> NoneEmpty(p.elems))
  }

  predicate NoneEmpty(ps: seq<Param>)
    decreases ps, 0
  {
    ps == [] || (NoEmptyArrays(ps[0]) && NoneEmpty(ps[1..]))
  }

  /** All fixed arrays inside are static. */
  predicate FixedArraysStatic(p: Param)
    decreases p, 1
  {
    (p.FixedArray? ==> !IsDynamic(p)) && (HasElems(p) ==> AllFixedArraysStatic(p.elems))
  }

  predicate AllFixedArraysStatic(ps: seq<Param>)
    decreases ps, 0
  {
    ps == [] || (FixedArraysStatic(ps[0]) && AllFixedArraysStatic(ps[1..]))
  }

  ghost predicate SameKinds(ts: seq<Param>, ps: seq<Param>) {
    |ts| == |ps| && forall i :: 0 <= i < |ts| ==> IsDynamic(ps[i]) == IsDynamic(ts[i])
  }

  /** Whatever the bytes, a decoded value has no empty array, and the offset has moved by exactly what the value uses. */
  lemma {:induction false} DecodedUses(t: Param, enc: seq<byte>, off: nat)
    requires Decoded(t, enc, off).Got?
    ensures var (p, end) := Decoded(t, enc, off).value;
            IsDynamic(p) == IsDynamic(t) && NoEmptyArrays(p) && end == off + Used(p)
    decreases Depth(t), 0, 0
  {
    hide ReadWord, Cast, DecodedSet, Grown, DecodedCounted, DecodedBytes, Padded, UsedSet;
    match t
    case Word(_, _) =>
    case FixedBytes(_, _) =>
    case Bytes(_) =>
      DecodedBytesUse(enc, off);
    case String(_) =>
      DecodedBytesUse(enc, off);
    case Tuple(es) =>
      SetUses(es, enc, off);
    case Array(es) =>
      CountedUses(es, enc, off);
      UsedSetPadded(DecodedCounted(es, enc, off).value.0);
    case FixedArray(es) =>
      if IsDynamic(t) {
        CountedUses(es, enc, off);
        UsedSetPadded(DecodedCounted(es, enc, off).value.0);
      } else {
        SetUses(es, enc, off);
        UsedSetPadded(DecodedSet(es, enc, off).value.0);
      }
  }

  lemma DecodedBytesUse(enc: seq<byte>, off: nat)
    requires DecodedBytes(enc, off).Got?
    ensures DecodedBytes(enc, off).value.1 == off + 32 + Padded(|DecodedBytes(enc, off).value.0|)
  {
    PaddedPlusWord(|DecodedBytes(enc, off).value.0|);
  }

  lemma GrownFirst(es: seq<Param>, count: nat)
    requires es != []
    ensures Grown(es, count) != [] && Grown(es, count)[0] == es[0]
  {
  }

  lemma {:induction false} CountedUses(es: seq<Param>, enc: seq<byte>, off: nat)
    requires DecodedCounted(es, enc, off).Got?
    ensures var (ps, end) := DecodedCounted(es, enc, off).value;
            && es != [] && ps != [] && IsDynamic(ps[0]) == IsDynamic(es[0])
            && NoneEmpty(ps) && end == off + 32 + UsedSet(ps)
    decreases MaxDepth(es), 3, |es|
  {
    hide DecodedSet, Grown, ReadWord, IsDynamic;
    var count := ReadWord(enc, off).value;
    GrownDepth(es, count);
    GrownFirst(es, count);
    SetUses(Grown(es, count), enc, off + 32);
  }

  lemma {:induction false} SetUses(ts: seq<Param>, enc: seq<byte>, off: nat)
    requires DecodedSet(ts, enc, off).Got?
    ensures var (ps, end) := DecodedSet(ts, enc, off).value;
            SameKinds(ts, ps) && NoneEmpty(ps) && end == off + UsedSet(ps)
    decreases MaxDepth(ts), 2, |ts|
  {
    hide DecodedHeads, DecodedTails, SameKinds;
    HeadsUse(ts, enc, off);
    var small := DecodedHeads(ts, enc, off).value;
    TailsUse(ts, small.0, enc, small.1);
    UsedSplits(DecodedSet(ts, enc, off).value.0);
  }

  /** The part of a set that the first pass moves over, and the part the second does. */
  function UsedHeads(ps: seq<Param>): nat {
    if ps == [] then 0 else (if IsDynamic(ps[0]) then 32 else Used(ps[0])) + UsedHeads(ps[1..])
  }

  function UsedTails(ps: seq<Param>): nat {
    if ps == [] then 0 else (if IsDynamic(ps[0]) then Used(ps[0]) else 0) + UsedTails(ps[1..])
  }

  lemma {:induction false} UsedSplits(ps: seq<Param>)
    ensures UsedSet(ps) == UsedHeads(ps) + UsedTails(ps)
    decreases |ps|
  {
    if ps != [] {
      UsedSplits(ps[1..]);
    }
  }

  /** After the first pass: static members are decoded values, dynamic ones still the template's. */
  ghost predicate HeadsFilled(ts: seq<Param>, ps: seq<Param>) {
    && SameKinds(ts, ps)
    && (forall i :: 0 <= i < |ts| && !IsDynamic(ts[i]) ==> NoEmptyArrays(ps[i]))
  }

  lemma {:induction false} HeadsUse(ts: seq<Param>, enc: seq<byte>, off: nat)
    requires DecodedHeads(ts, enc, off).Got?
    ensures var (ps, end) := DecodedHeads(ts, enc, off).value;
            HeadsFilled(ts, ps) && end == off + UsedHeads(ps)
    decreases MaxDepth(ts), 1, |ts|
  {
    hide Decoded, IsDynamic, ReadWord, Used, NoEmptyArrays;
    if ts != [] {
      var (ps, end) := DecodedHeads(ts, enc, off).value;
      if IsDynamic(ts[0]) {
        HeadsUse(ts[1..], enc, off + 32);
      } else {
        DecodedUses(ts[0], enc, off);
        HeadsUse(ts[1..], enc, Decoded(ts[0], enc, off).value.1);
      }
      Consed(ts, ps);
    }
  }

  lemma Consed(ts: seq<Param>, ps: seq<Param>)
    requires |ts| == |ps| > 0 && IsDynamic(ts[0]) == IsDynamic(ps[0]) && HeadsFilled(ts[1..], ps[1..])
    requires !IsDynamic(ts[0]) ==> NoEmptyArrays(ps[0])
    ensures HeadsFilled(ts, ps)
  {
    hide IsDynamic, NoEmptyArrays;
    forall i | 0 <= i < |ts|
      ensures IsDynamic(ps[i]) == IsDynamic(ts[i]) && (!IsDynamic(ts[i]) ==> NoEmptyArrays(ps[i]))
    {
      if i > 0 {
        assert ts[i] == ts[1..][i - 1] && ps[i] == ps[1..][i - 1];
      }
    }
  }

  lemma {:induction false} TailsUse(ts: seq<Param>, filled: seq<Param>, enc: seq<byte>, off: nat)
    requires HeadsFilled(ts, filled) && DecodedTails(ts, filled, enc, off).Got?
    ensures var (ps, end) := DecodedTails(ts, filled, enc, off).value;
            SameKinds(ts, ps) && NoneEmpty(ps) && UsedHeads(ps) == UsedHeads(filled) && end == off + UsedTails(ps)
    decreases MaxDepth(ts), 1, |ts|
  {
    hide Decoded, IsDynamic, Used, NoEmptyArrays;
    if ts != [] {
      var (ps, end) := DecodedTails(ts, filled, enc, off).value;
      assert HeadsFilled(ts[1..], filled[1..]);
      if IsDynamic(ts[0]) {
        DecodedUses(ts[0], enc, off);
        TailsUse(ts[1..], filled[1..], enc, Decoded(ts[0], enc, off).value.1);
      } else {
        TailsUse(ts[1..], filled[1..], enc, off);
      }
      SameKindsConsed(ts, ps);
    }
  }

  lemma SameKindsConsed(ts: seq<Param>, ps: seq<Param>)
    requires |ts| == |ps| > 0 && IsDynamic(ts[0]) == IsDynamic(ps[0]) && SameKinds(ts[1..], ps[1..])
    ensures SameKinds(ts, ps)
  {
    hide IsDynamic;
    forall i | 0 <= i < |ts|
      ensures IsDynamic(ps[i]) == IsDynamic(ts[i])
    {
      if i > 0 {
        assert ts[i] == ts[1..][i - 1] && ps[i] == ps[1..][i - 1];
      }
    }
  }

  /** The values the classes can hold, of whatever type: numbers in range, `bytesN` with N at most 32 bytes, counts a size_t
      holds. */
  predicate Holdable(p: Param)
    decreases p, 1
  {
    && (p.Word? ==> ValidKind(p.kind) && p.value < Limit(p.kind))
    && (p.FixedBytes? ==> p.n == |p.data| <= 32)
    && (p.Bytes? || p.String? ==> |p.data| < SIZE_T_COUNT)
    && (HasElems(p) ==> |p.elems| < SIZE_T_COUNT && AllHoldable(p.elems))
  }

  predicate AllHoldable(ps: seq<Param>)
    decreases ps, 0
  {
    ps == [] || (Holdable(ps[0]) && AllHoldable(ps[1..]))
  }

  lemma {:induction false} UsesAtLeastEncoding(p: Param)
    requires Holdable(p)
    ensures Used(p) >= |Encoded(p)|
    ensures Used(p) == |Encoded(p)| <==> FixedArraysStatic(p)
    decreases p, 1
  {
    hide Heads, Tails, HeadSize, UsedSet, Pow, Limit;
    if HasElems(p) {
      SetUsesAtLeastEncoding(p.elems, HeadSize(p.elems));
    }
  }

  lemma HoldableInHead(p: Param)
    requires Holdable(p)
    ensures InHead(p) <==> !IsDynamic(p)
  {
  }

  lemma {:induction false} SetUsesAtLeastEncoding(ps: seq<Param>, offset: nat)
    requires AllHoldable(ps)
    ensures UsedSet(ps) >= |Heads(ps, offset)| + |Tails(ps)|
    ensures UsedSet(ps) == |Heads(ps, offset)| + |Tails(ps)| <==> AllFixedArraysStatic(ps)
    decreases ps, 0
  {
    hide Encoded, Used, IsDynamic, InHead, Holdable, FixedArraysStatic, Size;
    if ps != [] {
      HoldableInHead(ps[0]);
      UsesAtLeastEncoding(ps[0]);
      SetUsesAtLeastEncoding(ps[1..], if InHead(ps[0]) then offset else offset + Size(ps[0]));
    }
  }

  lemma {:induction false} FitsItself(p: Param)
    requires Holdable(p) && NoEmptyArrays(p) && FixedArraysStatic(p)
    ensures Fits(p, p)
    decreases p, 1
  {
    hide Limit, AllFit;
    if HasElems(p) {
      AllFitThemselves(p.elems);
    }
  }

  lemma {:induction false} AllFitThemselves(ps: seq<Param>)
    requires AllHoldable(ps) && NoneEmpty(ps) && AllFixedArraysStatic(ps)
    ensures AllFit(ps, ps)
    decreases ps, 0
  {
    hide Fits;
    if ps != [] {
      FitsItself(ps[0]);
      AllFitThemselves(ps[1..]);
    }
  }

  /** An encoded value can be restored, with the offset right behind it, exactly when it has no empty array and no dynamic fixed
      array. */
  lemma RestorableExactly(p: Param, enc: seq<byte>, off: nat)
    requires Holdable(p) && Lies(Encoded(p), enc, off)
    ensures (exists t :: Decoded(t, enc, off) == Got((p, off + |Encoded(p)|))) <==> NoEmptyArrays(p) && FixedArraysStatic(p)
  {
    hide Decoded, Encoded, Holdable, NoEmptyArrays, FixedArraysStatic, Fits, Used, IsDynamic, Lies;
    UsesAtLeastEncoding(p);
    forall t | Decoded(t, enc, off) == Got((p, off + |Encoded(p)|))
      ensures NoEmptyArrays(p) && FixedArraysStatic(p)
    {
      DecodedUses(t, enc, off);
    }
    if NoEmptyArrays(p) && FixedArraysStatic(p) {
      FitsItself(p);
      Restores(p, p, enc, off);
    }
  }
}
