/** The encoding as the Solidity ABI specification (v0.8.4) defines it, and exactly when the encoder conforms. */
module AbiSolidity {
  import opened Numbers
  import opened AbiParam
  import opened AbiEncoder
  import AbiLayout

  /** Dynamic types: bytes, string, T[], T[k] for dynamic T, and tuples with a dynamic member. */
  predicate SolDynamic(p: Param)
    decreases p, 1
  {
    match p
    case Word(_, _) => false
    case FixedBytes(_, _) => false
    case Bytes(_) => true
    case String(_) => true
    case Array(_) => true
    case FixedArray(es) => es != [] && SolDynamic(es[0])
    case Tuple(es) => SomeDynamic(es)
  }

  predicate SomeDynamic(ps: seq<Param>)
    decreases ps, 0
  {
    ps != [] && (SolDynamic(ps[0]) || SomeDynamic(ps[1..]))
  }

  /** Bytes and as many zeros behind them as make the length a multiple of 32. */
  function SolBytes(d: seq<byte>): seq<byte> {
    d + seq((32 - |d| % 32) % 32, _ => 0)
  }

  lemma SolBytesIs(d: seq<byte>)
    ensures SolBytes(d) == RightPadded(d)
  {
    var n := |d|;
    assert Padded(n) - n == (32 - n % 32) % 32;
  }

  /** enc(X) */
  function SolEncoded(p: Param): seq<byte>
    decreases p, 1
  {
    match p
    case Word(_, v) => WordBytes(v)
    case FixedBytes(_, d) => SolBytes(d)
    case Bytes(d) => WordBytes(|d|) + SolBytes(d)
    case String(d) => WordBytes(|d|) + SolBytes(d)
    case FixedArray(es) => SolSet(es)
    case Array(es) => WordBytes(|es|) + SolSet(es)
    case Tuple(es) => SolSet(es)
  }

  /** head(X1)...head(Xn) tail(X1)...tail(Xn) */
  function SolSet(ps: seq<Param>): seq<byte>
    decreases ps, 2
  {
    SolHeads(ps, SolHeadSize(ps)) + SolTails(ps)
  }

  function SolHeadSize(ps: seq<Param>): nat
    decreases ps, 1
  {
    if ps == [] then 0 else (if SolDynamic(ps[0]) then 32 else |SolEncoded(ps[0])|) + SolHeadSize(ps[1..])
  }

  /** A static head is the encoding, a dynamic one the distance to the tail: all heads and the tails before it. */
  function SolHeads(ps: seq<Param>, offset: nat): seq<byte>
    decreases ps, 0
  {
    if ps == [] then []
    else if SolDynamic(ps[0]) then WordBytes(offset) + SolHeads(ps[1..], offset + |SolEncoded(ps[0])|)
    else SolEncoded(ps[0]) + SolHeads(ps[1..], offset)
  }

  function SolTails(ps: seq<Param>): seq<byte>
    decreases ps, 0
  {
    if ps == [] then [] else (if SolDynamic(ps[0]) then SolEncoded(ps[0]) else []) + SolTails(ps[1..])
  }

  // -------------------------------------------------------- when the encoder conforms

  /** `bytesN` values hold at most one word. */
  predicate Narrow(p: Param)
    decreases p, 1
  {
    (p.FixedBytes? ==> |p.data| <= 32) && (HasElems(p) ==> AllNarrow(p.elems))
  }

  predicate AllNarrow(ps: seq<Param>)
    decreases ps, 0
  {
    ps == [] || (Narrow(ps[0]) && AllNarrow(ps[1..]))
  }

  /** No set inside has a member that is a tuple (or a fixed array of tuples) without dynamic parts: the code takes it for
      dynamic. */
  predicate KindsAgree(p: Param)
    decreases p, 1
  {
    HasElems(p) ==> AllKindsAgree(p.elems)
  }

  predicate AllKindsAgree(ps: seq<Param>)
    decreases ps, 0
  {
    ps == [] || (IsDynamic(ps[0]) == SolDynamic(ps[0]) && KindsAgree(ps[0]) && AllKindsAgree(ps[1..]))
  }

  /** Where the running offset exceeds the true one by `slack`, every dynamic member from here on must find it zero. */
  predicate OffsetsAgree(ps: seq<Param>, slack: nat) {
    ps == []
    || (if IsDynamic(ps[0]) then slack == 0 && OffsetsAgree(ps[1..], AbiLayout.Gap(ps[0]))
        else OffsetsAgree(ps[1..], slack))
  }

  /** The condition under which the encoder follows the specification, for the set and all sets inside. */
  predicate Conforms(p: Param)
    decreases p, 1
  {
    HasElems(p) ==> SetConforms(p.elems)
  }

  predicate SetConforms(ps: seq<Param>)
    decreases ps, 2
  {
    MembersConform(ps) && OffsetsAgree(ps, AbiLayout.HeadGap(ps))
  }

  predicate MembersConform(ps: seq<Param>)
    decreases ps, 0
  {
    ps == [] || (IsDynamic(ps[0]) == SolDynamic(ps[0]) && Conforms(ps[0]) && MembersConform(ps[1..]))
  }

  lemma NarrowInHead(p: Param)
    requires Narrow(p)
    ensures InHead(p) <==> !IsDynamic(p)
  {
  }

  // ------------------------------------------------ lengths: the code never writes less

  lemma {:induction false} DynamicContains(p: Param)
    requires SolDynamic(p)
    ensures IsDynamic(p)
    decreases p
  {
    if p.FixedArray? {
      DynamicContains(p.elems[0]);
    }
  }

  /** Without members there is nothing to disagree on. */
  lemma LeavesAgree(p: Param)
    requires !HasElems(p)
    ensures Encoded(p) == SolEncoded(p)
  {
    hide SolBytes, RightPadded, WordBytes;
    if !p.Word? {
      SolBytesIs(p.data);
    }
  }

  lemma {:induction false} NotShorter(p: Param)
    requires Narrow(p)
    ensures |Encoded(p)| >= |SolEncoded(p)|
    ensures |Encoded(p)| == |SolEncoded(p)| <==> KindsAgree(p)
    decreases p, 1
  {
    hide Heads, Tails, SolHeads, SolTails, HeadSize, SolHeadSize;
    if HasElems(p) {
      SetNotShorter(p.elems, HeadSize(p.elems), SolHeadSize(p.elems));
    } else {
      hide Encoded, SolEncoded;
      LeavesAgree(p);
    }
  }

  lemma {:induction false} SetNotShorter(ps: seq<Param>, offset: nat, offset': nat)
    requires AllNarrow(ps)
    ensures |Heads(ps, offset)| + |Tails(ps)| >= |SolHeads(ps, offset')| + |SolTails(ps)|
    ensures |Heads(ps, offset)| + |Tails(ps)| == |SolHeads(ps, offset')| + |SolTails(ps)| <==> AllKindsAgree(ps)
    decreases ps, 0
  {
    hide Encoded, SolEncoded, Size, IsDynamic, SolDynamic, InHead, Narrow;
    if ps != [] {
      NarrowInHead(ps[0]);
      NotShorter(ps[0]);
      if SolDynamic(ps[0]) {
        DynamicContains(ps[0]);
      }
      SetNotShorter(ps[1..], if InHead(ps[0]) then offset else offset + Size(ps[0]),
                    if SolDynamic(ps[0]) then offset' + |SolEncoded(ps[0])| else offset');
    }
  }

  // ------------------------------------------------------------ the exact condition

  lemma Cancel(a: seq<byte>, b: seq<byte>, x: seq<byte>, y: seq<byte>)
    requires |a| == |b|
    ensures a + x == b + y <==> a == b && x == y
  {
    if a + x == b + y {
      assert (a + x)[..|a|] == a && (b + y)[..|b|] == b;
      assert (a + x)[|a|..] == x && (b + y)[|b|..] == y;
    }
  }

  lemma WordInjective(m: nat, n: nat)
    requires m < Pow(256, 32) && n < Pow(256, 32)
    ensures WordBytes(m) == WordBytes(n) <==> m == n
  {
    hide Pow, Digits, Value;
    ValueOfDigits(m, 32, 256);
    ValueOfDigits(n, 32, 256);
  }

  lemma {:induction false} HeadSizes(ps: seq<Param>)
    requires AllNarrow(ps) && AllKindsAgree(ps)
    ensures HeadSize(ps) == SolHeadSize(ps) + AbiLayout.HeadGap(ps)
    decreases |ps|
  {
    hide Encoded, SolEncoded, Size, IsDynamic, SolDynamic, InHead, Narrow, KindsAgree;
    if ps != [] {
      NarrowInHead(ps[0]);
      NotShorter(ps[0]);
      AbiLayout.SizeIsLengthPlusGap(ps[0]);
      HeadSizes(ps[1..]);
    }
  }

  lemma {:induction false} HeadLengths(ps: seq<Param>, offset: nat, offset': nat)
    requires AllNarrow(ps) && AllKindsAgree(ps)
    ensures |Heads(ps, offset)| == |SolHeads(ps, offset')|
    decreases |ps|
  {
    hide Encoded, SolEncoded, Size, IsDynamic, SolDynamic, InHead, Narrow, KindsAgree;
    if ps != [] {
      NarrowInHead(ps[0]);
      NotShorter(ps[0]);
      HeadLengths(ps[1..], if InHead(ps[0]) then offset else offset + Size(ps[0]),
                  if SolDynamic(ps[0]) then offset' + |SolEncoded(ps[0])| else offset');
    }
  }

  lemma {:induction false} SizesBoundOffsets(ps: seq<Param>)
    requires AllNarrow(ps)
    ensures HeadSize(ps) + AbiLayout.TailSize(ps) <= SetSize(ps)
    decreases |ps|
  {
    hide Size, IsDynamic, InHead, Narrow;
    if ps != [] {
      NarrowInHead(ps[0]);
      SizesBoundOffsets(ps[1..]);
    }
  }

  lemma {:induction false} MemberSizes(ps: seq<Param>)
    ensures ps != [] ==> Size(ps[0]) <= SetSize(ps) && SetSize(ps[1..]) <= SetSize(ps)
  {
  }

  ghost predicate PassesEqual(ps: seq<Param>, offset: nat, offset': nat) {
    Heads(ps, offset) == SolHeads(ps, offset') && Tails(ps) == SolTails(ps)
  }

  lemma DynamicFirst(ps: seq<Param>, offset: nat, offset': nat)
    requires ps != [] && !InHead(ps[0]) && SolDynamic(ps[0]) && |Encoded(ps[0])| == |SolEncoded(ps[0])|
    ensures PassesEqual(ps, offset, offset') <==>
            && WordBytes(offset) == WordBytes(offset') && Encoded(ps[0]) == SolEncoded(ps[0])
            && PassesEqual(ps[1..], offset + Size(ps[0]), offset' + |SolEncoded(ps[0])|)
  {
    hide Encoded, SolEncoded, Size, SolDynamic, InHead, WordBytes;
    var p, rest := ps[0], ps[1..];
    Cancel(WordBytes(offset), WordBytes(offset'), Heads(rest, offset + Size(p)), SolHeads(rest, offset' + |SolEncoded(p)|));
    Cancel(Encoded(p), SolEncoded(p), Tails(rest), SolTails(rest));
  }

  lemma StaticFirst(ps: seq<Param>, offset: nat, offset': nat)
    requires ps != [] && InHead(ps[0]) && !SolDynamic(ps[0]) && |Encoded(ps[0])| == |SolEncoded(ps[0])|
    ensures PassesEqual(ps, offset, offset') <==> Encoded(ps[0]) == SolEncoded(ps[0]) && PassesEqual(ps[1..], offset, offset')
  {
    hide Encoded, SolEncoded, Size, SolDynamic, InHead;
    var p, rest := ps[0], ps[1..];
    Cancel(Encoded(p), SolEncoded(p), Heads(rest, offset), SolHeads(rest, offset'));
    assert [] + Tails(rest) == Tails(rest) && [] + SolTails(rest) == SolTails(rest);
  }

  /** The two passes agree when every member does and no dynamic member is misplaced. */
  lemma {:induction false} PassesAgree(ps: seq<Param>, offset: nat, offset': nat, slack: nat)
    requires AllNarrow(ps) && AllKindsAgree(ps) && SetSize(ps) < Pow(256, 32)
    requires offset == offset' + slack && offset + AbiLayout.TailSize(ps) < Pow(256, 32)
    ensures Heads(ps, offset) == SolHeads(ps, offset') && Tails(ps) == SolTails(ps)
            <==> MembersConform(ps) && OffsetsAgree(ps, slack)
    decreases ps, 0
  {
    hide Encoded, SolEncoded, Size, IsDynamic, SolDynamic, InHead, Narrow, KindsAgree, Conforms;
    hide Pow, WordBytes, AbiLayout.Gap;
    if ps != [] {
      hide Heads, SolHeads, Tails, SolTails;
      var p, rest := ps[0], ps[1..];
      NarrowInHead(p);
      NotShorter(p);
      AbiLayout.SizeIsLengthPlusGap(p);
      MemberSizes(ps);
      ConformsExactly(p);
      if IsDynamic(p) {
        DynamicFirst(ps, offset, offset');
        WordInjective(offset, offset');
        PassesAgree(rest, offset + Size(p), offset' + |SolEncoded(p)|, slack + AbiLayout.Gap(p));
      } else {
        StaticFirst(ps, offset, offset');
        PassesAgree(rest, offset, offset', slack);
      }
    }
  }

  lemma {:induction false} MembersConformKinds(ps: seq<Param>)
    requires AllNarrow(ps) && MembersConform(ps) && SetSize(ps) < Pow(256, 32)
    ensures AllKindsAgree(ps)
    decreases ps, 1
  {
    hide Encoded, SolEncoded, Size, IsDynamic, SolDynamic, Narrow, Conforms, Pow;
    if ps != [] {
      MemberSizes(ps);
      ConformsExactly(ps[0]);
      NotShorter(ps[0]);
      MembersConformKinds(ps[1..]);
    }
  }

  lemma {:induction false} SetConformsExactly(ps: seq<Param>)
    requires AllNarrow(ps) && SetSize(ps) < Pow(256, 32)
    ensures EncodedSet(ps) == SolSet(ps) <==> SetConforms(ps)
    decreases ps, 2
  {
    hide Heads, Tails, SolHeads, SolTails, HeadSize, SolHeadSize, AllKindsAgree, MembersConform;
    hide Pow, OffsetsAgree, AbiLayout.HeadGap;
    var offset, offset' := HeadSize(ps), SolHeadSize(ps);
    SetNotShorter(ps, offset, offset');
    if MembersConform(ps) {
      MembersConformKinds(ps);
    }
    if AllKindsAgree(ps) {
      HeadSizes(ps);
      SizesBoundOffsets(ps);
      HeadLengths(ps, offset, offset');
      Cancel(Heads(ps, offset), SolHeads(ps, offset'), Tails(ps), SolTails(ps));
      PassesAgree(ps, offset, offset', AbiLayout.HeadGap(ps));
    }
  }

  /** `encode` writes what the Solidity specification prescribes if and only if `Conforms` holds. */
  lemma {:induction false} ConformsExactly(p: Param)
    requires Narrow(p) && Size(p) < Pow(256, 32)
    ensures Encoded(p) == SolEncoded(p) <==> Conforms(p)
    decreases p, 1
  {
    hide EncodedSet, SolSet, Pow, SetConforms, WordBytes;
    if HasElems(p) {
      SetConformsExactly(p.elems);
      if p.Array? {
        Cancel(WordBytes(|p.elems|), WordBytes(|p.elems|), EncodedSet(p.elems), SolSet(p.elems));
      }
    } else {
      hide Encoded, SolEncoded;
      LeavesAgree(p);
    }
  }

  /** A set of one member. */
  lemma OneMember(p: Param)
    ensures EncodedSet([p]) == if InHead(p) then Encoded(p) else WordBytes(if IsDynamic(p) then 32 else Size(p)) + Encoded(p)
    ensures SolSet([p]) == if SolDynamic(p) then WordBytes(32) + SolEncoded(p) else SolEncoded(p)
    ensures SomeDynamic([p]) == SolDynamic(p) && SetSize([p]) == (if IsDynamic(p) || Size(p) > 32 then 32 else 0) + Size(p)
  {
    hide InHead, Encoded, WordBytes, IsDynamic, Size, SolDynamic, SolEncoded;
    var ps := [p];
    assert ps[1..] == [];
    var o := if IsDynamic(p) then 32 else Size(p);
    assert HeadSize(ps) == o + HeadSize([]);
    OneHead(p, o);
    assert Heads(ps, o) + Tails(ps) == if InHead(p) then Encoded(p) else WordBytes(o) + Encoded(p);
    var u := if SolDynamic(p) then 32 else |SolEncoded(p)|;
    assert SolHeadSize(ps) == u + SolHeadSize([]);
    OneSolHead(p, u);
    assert SolHeads(ps, u) + SolTails(ps) == if SolDynamic(p) then WordBytes(32) + SolEncoded(p) else SolEncoded(p);
  }

  lemma OneSolHead(p: Param, o: nat)
    ensures SolHeads([p], o) == if SolDynamic(p) then WordBytes(o) else SolEncoded(p)
    ensures SolTails([p]) == if SolDynamic(p) then SolEncoded(p) else []
  {
    hide SolDynamic, SolEncoded, WordBytes;
    assert [p][1..] == [];
    assert SolHeads([], o) == [] && SolTails([]) == [];
  }

  /** A struct with one number as the member of another: the code writes an offset word, the specification only the number. */
  lemma StaticTupleGetsOffset()
    ensures var inner := Tuple([Word(UInt(256), 7)]);
            && Encoded(Tuple([inner])) == WordBytes(32) + WordBytes(7)
            && SolEncoded(Tuple([inner])) == WordBytes(7)
  {
    hide WordBytes, EncodedSet, SolSet, SetSize;
    var w := Word(UInt(256), 7);
    OneMember(w);
    OneMember(Tuple([w]));
  }
}
