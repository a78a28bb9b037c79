/** A decoder that follows the offset words, as the Solidity ABI specification reads an encoding, and its agreement with the
    sequential one. */
module AbiReference {
  import opened Numbers
  import opened AbiParam
  import AbiEncoder
  import AbiLayout
  import opened AbiSolidity
  import opened AbiDecoder
  import opened AbiRoundTrip

  function TyDepth(ty: Ty): nat
    decreases ty, 1
  {
    match ty
    case TArray(elem) => 1 + TyDepth(elem)
    case TFixedArray(elem, _) => 1 + TyDepth(elem)
    case TTuple(items) => 1 + MaxTyDepth(items)
    case _ => 0
  }

  function MaxTyDepth(tys: seq<Ty>): nat
    decreases tys, 0
  {
    if tys == [] then 0
    else
      var first, rest := TyDepth(tys[0]), MaxTyDepth(tys[1..]);
      if first < rest then rest else first
  }

  function Copies(ty: Ty, count: nat): (r: seq<Ty>)
    ensures |r| == count && MaxTyDepth(r) <= TyDepth(ty)
  {
    if count == 0 then [] else [ty] + Copies(ty, count - 1)
  }

  predicate TyDynamic(ty: Ty)
    decreases ty, 1
  {
    match ty
    case TWord(_) => false
    case TFixedBytes(_) => false
    case TFixedArray(elem, count) => count > 0 && TyDynamic(elem)
    case TTuple(items) => SomeTyDynamic(items)
    case _ => true
  }

  predicate SomeTyDynamic(tys: seq<Ty>)
    decreases tys, 0
  {
    tys != [] && (TyDynamic(tys[0]) || SomeTyDynamic(tys[1..]))
  }

  /** How many bytes the head of a member takes. */
  function HeadWidth(ty: Ty): nat
    decreases TyDepth(ty), 1, 0
  {
    if TyDynamic(ty) then 32 else StaticWidth(ty)
  }

  function StaticWidth(ty: Ty): nat
    decreases TyDepth(ty), 0, 0
  {
    match ty
    case TFixedArray(elem, count) => Widths(Copies(elem, count))
    case TTuple(items) => Widths(items)
    case _ => 32
  }

  function Widths(tys: seq<Ty>): nat
    decreases MaxTyDepth(tys), 2, |tys|
  {
    if tys == [] then 0 else HeadWidth(tys[0]) + Widths(tys[1..])
  }

  /** The value of type `ty` at `pos`; offsets inside it count from the start of the set they belong to. */
  function RefDecoded(ty: Ty, enc: seq<byte>, pos: nat): Option<Param>
    decreases TyDepth(ty), 0, 0
  {
    match ty
    case TWord(k) =>
      var v := ReadWord(enc, pos);
      if v.None? || v.value >= Limit(k) then None else Some(Word(k, v.value))
    case TFixedBytes(n) =>
      if |enc| < pos + Padded(n) then None else Some(FixedBytes(n, enc[pos..pos + n]))
    case TBytes =>
      var r := RefBytes(enc, pos);
      if r.None? then None else Some(Bytes(r.value))
    case TString =>
      var r := RefBytes(enc, pos);
      if r.None? then None else Some(String(r.value))
    case TFixedArray(elem, count) =>
      var r := RefMembers(Copies(elem, count), enc, pos, pos);
      if r.None? then None else Some(FixedArray(r.value))
    case TArray(elem) =>
      var count := ReadWord(enc, pos);
      if count.None? then None
      else
        var r := RefMembers(Copies(elem, count.value), enc, pos + 32, pos + 32);
        if r.None? then None else Some(Array(r.value))
    case TTuple(items) =>
      var r := RefMembers(items, enc, pos, pos);
      if r.None? then None else Some(Tuple(r.value))
  }

  function RefBytes(enc: seq<byte>, pos: nat): Option<seq<byte>> {
    var len := ReadWord(enc, pos);
    if len.None? || |enc| < pos + 32 + len.value then None else Some(enc[pos + 32..pos + 32 + len.value])
  }

  /** Members whose heads start at `head`; the tail of a dynamic one lies at `base` plus the offset in its head. */
  function RefMembers(tys: seq<Ty>, enc: seq<byte>, base: nat, head: nat): Option<seq<Param>>
    decreases MaxTyDepth(tys), 1, |tys|
  {
    if tys == [] then Some([])
    else
      var first := if TyDynamic(tys[0]) then
                     var offset := ReadWord(enc, head);
                     if offset.None? then None else RefDecoded(tys[0], enc, base + offset.value)
                   else RefDecoded(tys[0], enc, head);
      if first.None? then None
      else
        var rest := RefMembers(tys[1..], enc, base, head + HeadWidth(tys[0]));
        if rest.None? then None else Some([first.value] + rest.value)
  }

  // ---------------------------------------------- it reads every specified encoding

  lemma {:induction false} CopiesTyped(ps: seq<Param>, ty: Ty)
    requires AllHaveType(ps, ty)
    ensures HaveTypes(ps, Copies(ty, |ps|))
    decreases |ps|
  {
    hide HasType;
    if ps != [] {
      CopiesTyped(ps[1..], ty);
      assert Copies(ty, |ps|)[1..] == Copies(ty, |ps| - 1);
    }
  }

  lemma {:induction false} TypeTellsDynamic(p: Param, ty: Ty)
    requires HasType(p, ty)
    ensures SolDynamic(p) == TyDynamic(ty)
    decreases p, 1
  {
    hide Limit;
    match p
    case FixedArray(es) => TypeTellsDynamic(es[0], ty.elem);
    case Tuple(es) => TypesTellDynamic(es, ty.items);
    case _ =>
  }

  lemma {:induction false} TypesTellDynamic(ps: seq<Param>, tys: seq<Ty>)
    requires HaveTypes(ps, tys)
    ensures SomeDynamic(ps) == SomeTyDynamic(tys)
    decreases ps, 0
  {
    hide HasType, SolDynamic, TyDynamic;
    if ps != [] {
      TypeTellsDynamic(ps[0], tys[0]);
      TypesTellDynamic(ps[1..], tys[1..]);
    }
  }

  lemma {:induction false} StaticLength(p: Param, ty: Ty)
    requires HasType(p, ty) && !TyDynamic(ty)
    ensures |SolEncoded(p)| == StaticWidth(ty)
    decreases p, 1
  {
    hide SolSet, Widths, Limit, WordBytes, HaveTypes, AllHaveType;
    match p
    case FixedArray(es) =>
      CopiesTyped(es, ty.elem);
      CopiesStatic(ty.elem, |es|);
      StaticLengths(es, Copies(ty.elem, |es|));
    case Tuple(es) =>
      StaticLengths(es, ty.items);
    case FixedBytes(_, d) =>
      SolBytesIs(d);
    case _ =>
  }

  lemma {:induction false} CopiesStatic(ty: Ty, count: nat)
    requires !TyDynamic(ty)
    ensures !SomeTyDynamic(Copies(ty, count))
  {
    if count > 0 {
      CopiesStatic(ty, count - 1);
    }
  }

  lemma {:induction false} StaticLengths(ps: seq<Param>, tys: seq<Ty>)
    requires HaveTypes(ps, tys) && !SomeTyDynamic(tys)
    ensures |SolSet(ps)| == Widths(tys)
    decreases ps, 2
  {
    hide SolHeads, SolTails, SolHeadSize;
    HeadWidths(ps, tys, SolHeadSize(ps));
    NoTails(ps, tys);
  }

  lemma {:induction false} NoTails(ps: seq<Param>, tys: seq<Ty>)
    requires HaveTypes(ps, tys) && !SomeTyDynamic(tys)
    ensures SolTails(ps) == []
    decreases |ps|
  {
    hide HasType, SolDynamic, TyDynamic, SolEncoded;
    if ps != [] {
      TypeTellsDynamic(ps[0], tys[0]);
      NoTails(ps[1..], tys[1..]);
    }
  }

  lemma {:induction false} HeadWidths(ps: seq<Param>, tys: seq<Ty>, offset: nat)
    requires HaveTypes(ps, tys)
    ensures |SolHeads(ps, offset)| == Widths(tys)
    decreases ps, 0
  {
    hide HasType, SolDynamic, TyDynamic, SolEncoded, StaticWidth;
    if ps != [] {
      TypeTellsDynamic(ps[0], tys[0]);
      if !TyDynamic(tys[0]) {
        StaticLength(ps[0], tys[0]);
      }
      HeadWidths(ps[1..], tys[1..], if SolDynamic(ps[0]) then offset + |SolEncoded(ps[0])| else offset);
    }
  }

  /** Following the offsets recovers every value of every type from its specified encoding, empty arrays and dynamic fixed arrays
      included. */
  lemma {:induction false} RefReads(p: Param, ty: Ty, enc: seq<byte>, pos: nat)
    requires HasType(p, ty) && Lies(SolEncoded(p), enc, pos) && |SolEncoded(p)| < Pow(256, 32)
    ensures RefDecoded(ty, enc, pos) == Some(p)
    decreases p, 1
  {
    hide WordBytes, Pow, Limit, ReadWord, SolSet, SolBytes, RefMembers, Lies, RightPadded, RefBytes, HaveTypes, AllHaveType;
    match p
    case Word(k, v) =>
      CastKeeps(k, v);
      WordRead(v, enc, pos);
    case FixedBytes(n, d) =>
      SolBytesIs(d);
      FixedBytesRestore(d, enc, pos);
      LiesInside(RightPadded(d), enc, pos);
    case Bytes(d) =>
      SolBytesIs(d);
      RefBytesRead(d, enc, pos);
    case String(d) =>
      SolBytesIs(d);
      RefBytesRead(d, enc, pos);
    case Tuple(es) =>
      RefSetRead(es, ty.items, enc, pos);
    case FixedArray(es) =>
      CopiesTyped(es, ty.elem);
      RefSetRead(es, Copies(ty.elem, |es|), enc, pos);
    case Array(es) =>
      WordHolds(0);
      LiesApart(WordBytes(|es|), SolSet(es), enc, pos);
      WordRead(|es|, enc, pos);
      CopiesTyped(es, ty.elem);
      RefSetRead(es, Copies(ty.elem, |es|), enc, pos + 32);
  }

  lemma LiesInside(x: seq<byte>, enc: seq<byte>, off: nat)
    requires Lies(x, enc, off)
    ensures off + |x| <= |enc|
  {
  }

  lemma RefBytesRead(d: seq<byte>, enc: seq<byte>, pos: nat)
    requires |d| < SIZE_T_COUNT && Lies(WordBytes(|d|) + RightPadded(d), enc, pos)
    ensures RefBytes(enc, pos) == Some(d)
  {
    hide WordBytes, RightPadded, ReadWord, Lies, Pow;
    LiesApart(WordBytes(|d|), RightPadded(d), enc, pos);
    WordHolds(0);
    WordRead(|d|, enc, pos);
    FixedBytesRestore(d, enc, pos + 32);
  }

  lemma {:induction false} RefSetRead(ps: seq<Param>, tys: seq<Ty>, enc: seq<byte>, base: nat)
    requires HaveTypes(ps, tys) && Lies(SolSet(ps), enc, base) && |SolSet(ps)| < Pow(256, 32)
    ensures RefMembers(tys, enc, base, base) == Some(ps)
    decreases ps, 3
  {
    hide SolHeads, SolTails, RefMembers, Lies, HaveTypes, Pow;
    var offset := SolHeadSize(ps);
    SolHeadSizeIsLength(ps, offset);
    LiesApart(SolHeads(ps, offset), SolTails(ps), enc, base);
    RefMembersRead(ps, tys, enc, base, base, offset);
  }

  lemma {:induction false} SolHeadSizeIsLength(ps: seq<Param>, offset: nat)
    ensures SolHeadSize(ps) == |SolHeads(ps, offset)|
    decreases |ps|
  {
    hide SolEncoded, SolDynamic;
    if ps != [] {
      SolHeadSizeIsLength(ps[1..], if SolDynamic(ps[0]) then offset + |SolEncoded(ps[0])| else offset);
    }
  }

  /** Heads from `head` on, tails from `base + offset` on. */
  lemma {:induction false} RefMembersRead(ps: seq<Param>, tys: seq<Ty>, enc: seq<byte>, base: nat, head: nat, offset: nat)
    requires HaveTypes(ps, tys) && offset + |SolTails(ps)| < Pow(256, 32)
    requires |SolHeads(ps, offset)| < Pow(256, 32)
    requires Lies(SolHeads(ps, offset), enc, head) && Lies(SolTails(ps), enc, base + offset)
    ensures RefMembers(tys, enc, base, head) == Some(ps)
    decreases ps, 2
  {
    hide HasType, SolDynamic, TyDynamic, SolEncoded, StaticWidth, WordBytes, Pow, ReadWord, RefDecoded, Lies;
    if ps != [] {
      var p, ty, rest := ps[0], tys[0], ps[1..];
      TypeTellsDynamic(p, ty);
      assert [p] + rest == ps;
      if SolDynamic(p) {
        var next := offset + |SolEncoded(p)|;
        LiesApart(WordBytes(offset), SolHeads(rest, next), enc, head);
        LiesApart(SolEncoded(p), SolTails(rest), enc, base + offset);
        WordRead(offset, enc, head);
        RefReads(p, ty, enc, base + offset);
        RefMembersRead(rest, tys[1..], enc, base, head + 32, next);
      } else {
        LiesApart(SolEncoded(p), SolHeads(rest, offset), enc, head);
        assert [] + SolTails(rest) == SolTails(rest);
        StaticLength(p, ty);
        RefReads(p, ty, enc, head);
        RefMembersRead(rest, tys[1..], enc, base, head + |SolEncoded(p)|, offset);
      }
    }
  }

  // ------------------------------------------------------ the two decoders agree

  /** A template made from a type alone: arrays get one element to learn their type from. */
  function Blank(ty: Ty): Param
    decreases ty, 1
  {
    match ty
    case TWord(k) => Word(k, 0)
    case TFixedBytes(n) => FixedBytes(n, seq(n, _ => 0))
    case TBytes => Bytes([])
    case TString => String([])
    case TFixedArray(elem, count) => FixedArray(seq(count, _ => Blank(elem)))
    case TArray(elem) => Array([Blank(elem)])
    case TTuple(items) => Tuple(Blanks(items))
  }

  function Blanks(tys: seq<Ty>): seq<Param>
    decreases tys, 0
  {
    if tys == [] then [] else [Blank(tys[0])] + Blanks(tys[1..])
  }

  /** `ParamFactory::make` knows the type name. */
  predicate Makeable(ty: Ty) {
    match ty
    case TFixedArray(_, _) => false
    case TTuple(_) => false
    case TArray(elem) => Makeable(elem)
    case _ => true
  }

  /** Arrays inside with more than one element have an element type `make` knows, so that the template can grow. */
  predicate Growable(p: Param, ty: Ty)
    requires HasType(p, ty)
    decreases p, 1
  {
    match p
    case FixedArray(es) => AllGrowable(es, ty.elem)
    case Array(es) => (|es| <= 1 || Makeable(ty.elem)) && AllGrowable(es, ty.elem)
    case Tuple(es) => EachGrowable(es, ty.items)
    case _ => true
  }

  predicate AllGrowable(ps: seq<Param>, ty: Ty)
    requires AllHaveType(ps, ty)
    decreases ps, 0
  {
    ps == [] || (Growable(ps[0], ty) && AllGrowable(ps[1..], ty))
  }

  predicate EachGrowable(ps: seq<Param>, tys: seq<Ty>)
    requires HaveTypes(ps, tys)
    decreases ps, 0
  {
    ps == [] || (Growable(ps[0], tys[0]) && EachGrowable(ps[1..], tys[1..]))
  }

  /** `make` on the type's name gives the blank template exactly for the types it knows. */
  lemma {:induction false} MakesBlank(ty: Ty)
    ensures Made(Blank(ty)) == Got(Blank(ty)) <==> Makeable(ty)
    decreases ty
  {
    if ty.TArray? {
      MakesBlank(ty.elem);
    }
  }

  lemma BlankGrows(ty: Ty, count: nat)
    requires count > 0 && (count == 1 || Makeable(ty))
    ensures Grown([Blank(ty)], count) == seq(count, _ => Blank(ty))
  {
    hide Blank, Made;
    if count > 1 {
      MakesBlank(ty);
      assert [Blank(ty)] + seq(count - 1, _ => Blank(ty)) == seq(count, _ => Blank(ty));
    } else {
      assert [Blank(ty)] == seq(1, _ => Blank(ty));
    }
  }

  /** For any other type it gives nothing, or something that no value of the type fits. */
  lemma {:induction false} MadeOtherwise(p: Param, ty: Ty)
    requires HasType(p, ty) && !Makeable(ty) && Made(Blank(ty)).Got?
    ensures !Fits(Made(Blank(ty)).value, p)
    decreases ty
  {
    hide Limit, AllFit, Grown;
    if ty.TArray? && Fits(Made(Blank(ty)).value, p) {
      var made := Made(Blank(ty.elem)).value;
      assert Made(Blank(ty)).value == Array([made]);
      GrownFirst([made], |p.elems|);
      FirstFits(Grown([made], |p.elems|), p.elems);
      MadeOtherwise(p.elems[0], ty.elem);
    }
  }

  lemma FirstFits(ts: seq<Param>, ps: seq<Param>)
    requires ts != [] && ps != [] && AllFit(ts, ps)
    ensures Fits(ts[0], ps[0])
  {
    hide Fits;
  }

  /** So a blank array template for elements of such a type fits no array of two or more. */
  lemma BlankStays(ty: Ty, es: seq<Param>)
    requires |es| > 1 && !Makeable(ty) && AllHaveType(es, ty)
    ensures !AllFit(Grown([Blank(ty)], |es|), es)
  {
    hide Blank, Makeable, HasType, Fits, Made;
    var grown := Grown([Blank(ty)], |es|);
    if AllFit(grown, es) {
      FitLengths(grown, es);
      FirstFits(grown[1..], es[1..]);
      assert grown[1] == Made(Blank(ty)).value && AllHaveType(es[1..], ty) && es[1..][0] == es[1];
      MadeOtherwise(es[1], ty);
    }
  }

  /** The blank template fits exactly the values without empty arrays and dynamic fixed arrays whose arrays `make` can grow. */
  lemma {:induction false} BlankFits(p: Param, ty: Ty)
    requires HasType(p, ty)
    ensures Fits(Blank(ty), p) <==> NoEmptyArrays(p) && FixedArraysStatic(p) && Growable(p, ty)
    decreases p, 1
  {
    hide Limit, AllFit, Grown, IsDynamic, Makeable;
    match p
    case FixedArray(es) =>
      BlankCopiesFit(es, ty.elem);
      BlankStatic(p, ty);
    case Array(es) =>
      if |es| > 1 && !Makeable(ty.elem) {
        BlankStays(ty.elem, es);
      } else if es != [] {
        BlankGrows(ty.elem, |es|);
        BlankCopiesFit(es, ty.elem);
      }
    case Tuple(es) =>
      BlanksFit(es, ty.items);
    case _ =>
  }

  lemma {:induction false} BlankStatic(p: Param, ty: Ty)
    requires HasType(p, ty)
    ensures IsDynamic(Blank(ty)) == IsDynamic(p)
    decreases p
  {
    hide Limit;
    if p.FixedArray? {
      BlankStatic(p.elems[0], ty.elem);
    }
  }

  lemma {:induction false} BlankCopiesFit(ps: seq<Param>, ty: Ty)
    requires AllHaveType(ps, ty)
    ensures AllFit(seq(|ps|, _ => Blank(ty)), ps) <==> NoneEmpty(ps) && AllFixedArraysStatic(ps) && AllGrowable(ps, ty)
    decreases ps, 0
  {
    hide HasType, Growable, NoEmptyArrays, FixedArraysStatic, Fits, Blank;
    if ps != [] {
      BlankFits(ps[0], ty);
      BlankCopiesFit(ps[1..], ty);
      assert seq(|ps|, _ => Blank(ty))[1..] == seq(|ps[1..]|, _ => Blank(ty));
    }
  }

  lemma {:induction false} BlanksFit(ps: seq<Param>, tys: seq<Ty>)
    requires HaveTypes(ps, tys)
    ensures AllFit(Blanks(tys), ps) <==> NoneEmpty(ps) && AllFixedArraysStatic(ps) && EachGrowable(ps, tys)
    decreases ps, 0
  {
    hide HasType, Growable, NoEmptyArrays, FixedArraysStatic, Fits, Blank;
    if ps != [] {
      BlankFits(ps[0], tys[0]);
      BlanksFit(ps[1..], tys[1..]);
    }
  }

  lemma {:induction false} TypedIsNarrow(p: Param, ty: Ty)
    requires HasType(p, ty)
    ensures Narrow(p)
    decreases p, 1
  {
    hide Limit, AllHaveType, HaveTypes, AllNarrow;
    match p
    case FixedArray(es) =>
      CopiesTyped(es, ty.elem);
      AllTypedAreNarrow(es, Copies(ty.elem, |es|));
    case Array(es) =>
      CopiesTyped(es, ty.elem);
      AllTypedAreNarrow(es, Copies(ty.elem, |es|));
    case Tuple(es) => AllTypedAreNarrow(es, ty.items);
    case _ =>
  }

  lemma {:induction false} AllTypedAreNarrow(ps: seq<Param>, tys: seq<Ty>)
    requires HaveTypes(ps, tys)
    ensures AllNarrow(ps)
    decreases ps, 0
  {
    hide HasType, Narrow;
    if ps != [] {
      TypedIsNarrow(ps[0], tys[0]);
      AllTypedAreNarrow(ps[1..], tys[1..]);
    }
  }

  /** On an encoding that conforms, the decoder that follows the offsets and the one that drops them give the same value, the one
      encoded, whatever fitting template the latter fills. */
  lemma DecodersAgree(t: Param, p: Param, ty: Ty, enc: seq<byte>, off: nat)
    requires HasType(p, ty) && Fits(t, p)
    requires Conforms(p) && Size(p) < Pow(256, 32) && Lies(AbiEncoder.Encoded(p), enc, off)
    ensures RefDecoded(ty, enc, off) == Some(p)
    ensures Decoded(t, enc, off) == Got((p, off + |AbiEncoder.Encoded(p)|))
  {
    hide RefDecoded, Decoded, AbiEncoder.Encoded, SolEncoded, HasType, Conforms, Size, Pow, Lies, Narrow, Fits;
    TypedIsNarrow(p, ty);
    ConformsExactly(p);
    AbiLayout.SizeIsExactWhenTight(p);
    RefReads(p, ty, enc, off);
    Restores(t, p, enc, off);
  }

  /** The same for the template that the type alone gives. */
  lemma BlankDecodes(p: Param, ty: Ty, enc: seq<byte>, off: nat)
    requires HasType(p, ty) && NoEmptyArrays(p) && FixedArraysStatic(p) && Growable(p, ty)
    requires Conforms(p) && Size(p) < Pow(256, 32) && Lies(AbiEncoder.Encoded(p), enc, off)
    ensures RefDecoded(ty, enc, off) == Some(p)
    ensures Decoded(Blank(ty), enc, off) == Got((p, off + |AbiEncoder.Encoded(p)|))
  {
    hide RefDecoded, Decoded, AbiEncoder.Encoded, Blank, HasType, Growable, Conforms, Size, Pow, Lies, Fits;
    BlankFits(p, ty);
    DecodersAgree(Blank(ty), p, ty, enc, off);
  }

  /** Two structs in an array: `make` makes no structs, so the template needs both, and then they decode. */
  lemma ArraysOfStructsDecode(enc: seq<byte>, off: nat)
    ensures var s := Tuple([String([])]);
            var p, ty := Array([s, s]), TArray(TTuple([TString]));
            && HasType(p, ty) && !Fits(Blank(ty), p)
            && (Lies(AbiEncoder.Encoded(p), enc, off) ==>
                  RefDecoded(ty, enc, off) == Some(p) && Decoded(p, enc, off) == Got((p, off + |AbiEncoder.Encoded(p)|)))
  {
    hide RefDecoded, Decoded, AbiEncoder.Encoded, Lies, Pow;
    var s := Tuple([String([])]);
    var p, ty := Array([s, s]), TArray(TTuple([TString]));
    TwoStructs();
    if Lies(AbiEncoder.Encoded(p), enc, off) {
      DecodersAgree(p, p, ty, enc, off);
    }
  }

  lemma {:induction false} Twice(s: Param)
    requires Holdable(s) && NoEmptyArrays(s) && FixedArraysStatic(s) && Narrow(s) && AbiLayout.Tight(s) && KindsAgree(s)
    requires IsDynamic(s) && SolDynamic(s)
    ensures AllHoldable([s, s]) && NoneEmpty([s, s]) && AllFixedArraysStatic([s, s])
    ensures AllNarrow([s, s]) && AbiLayout.AllTight([s, s]) && AllKindsAgree([s, s]) && SetSize([s, s]) == 64 + 2 * Size(s)
  {
    hide Holdable, NoEmptyArrays, FixedArraysStatic, Narrow, AbiLayout.Tight, KindsAgree, IsDynamic, SolDynamic, Size;
    assert [s, s][1..] == [s] && [s][1..] == [];
    assert AllHoldable([s]) && NoneEmpty([s]) && AllFixedArraysStatic([s]);
    assert AllNarrow([s]) && AbiLayout.AllTight([s]);
    assert AllKindsAgree([s]) && SetSize([s]) == 32 + Size(s);
  }

  lemma StructsTyped()
    ensures var s := Tuple([String([])]);
            HasType(Array([s, s]), TArray(TTuple([TString])))
  {
    var s, ty := Tuple([String([])]), TTuple([TString]);
    assert HaveTypes([], []);
    assert HaveTypes([String([])], [TString]);
    assert HasType(s, ty);
    assert [s, s][1..] == [s];
    assert AllHaveType([s], ty);
  }

  lemma TwoStructs()
    ensures var s := Tuple([String([])]);
            var p, ty := Array([s, s]), TArray(TTuple([TString]));
            HasType(p, ty) && Conforms(p) && Size(p) < Pow(256, 32) && !Fits(Blank(ty), p) && Fits(p, p)
  {
    hide Pow, Blank, Fits, Conforms, HasType;
    var s := Tuple([String([])]);
    var p, ty := Array([s, s]), TArray(TTuple([TString]));
    StructsTyped();
    BlankFits(p, ty);
    StructFacts(s);
    Twice(s);
    FitsItself(p);
    TightConforms(p);
    WordHolds(0);
  }

  lemma StructFacts(s: Param)
    requires s == Tuple([String([])])
    ensures Holdable(s) && NoEmptyArrays(s) && FixedArraysStatic(s) && Narrow(s) && AbiLayout.Tight(s) && KindsAgree(s)
    ensures IsDynamic(s) && SolDynamic(s) && Size(s) == 64
  {
    assert [String([])][1..] == [];
    assert SetSize([String([])]) == 64;
  }

  /** The encoder conforms to the specification for every value whose static arrays are flat and whose tuples have dynamic
      parts. */
  lemma PlainValuesConform(p: Param, ty: Ty)
    requires HasType(p, ty) && AbiLayout.Tight(p) && KindsAgree(p) && Size(p) < Pow(256, 32)
    ensures AbiEncoder.Encoded(p) == SolEncoded(p)
  {
    hide AbiEncoder.Encoded, SolEncoded, HasType, Size, Pow;
    TypedIsNarrow(p, ty);
    TightConforms(p);
    ConformsExactly(p);
  }

  lemma {:induction false} TightConforms(p: Param)
    requires Narrow(p) && AbiLayout.Tight(p) && KindsAgree(p)
    ensures Conforms(p)
    decreases p, 1
  {
    hide MembersConform, OffsetsAgree, AbiLayout.HeadGap, IsDynamic, SolDynamic;
    if HasElems(p) {
      AllTightConform(p.elems);
    }
  }

  lemma {:induction false} AllTightConform(ps: seq<Param>)
    requires AllNarrow(ps) && AbiLayout.AllTight(ps) && AllKindsAgree(ps)
    ensures MembersConform(ps) && AbiLayout.HeadGap(ps) == 0 && OffsetsAgree(ps, 0)
    decreases ps, 0
  {
    hide Conforms, Narrow, AbiLayout.Tight, KindsAgree, IsDynamic, SolDynamic, AbiEncoder.InHead, Size, AbiLayout.Gap;
    if ps != [] {
      NarrowInHead(ps[0]);
      AbiLayout.TightMeansNoGap(ps[0]);
      TightConforms(ps[0]);
      AllTightConform(ps[1..]);
    }
  }
}
