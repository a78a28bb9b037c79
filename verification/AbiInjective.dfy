/** The encoder loses nothing: whatever its offset words say, an encoding tells the value of its type, and where it ends
    (libcfxcore/abi/Parameters.cpp, Array.cpp, Bytes.cpp). */
module AbiInjective {
  import opened Numbers
  import opened AbiParam
  import opened AbiEncoder
  import AbiRoundTrip
  import AbiReference

  lemma SameFront(a: seq<byte>, b: seq<byte>, x: seq<byte>, y: seq<byte>)
    requires |a| == |b| && a + x == b + y
    ensures a == b && x == y
  {
    assert (a + x)[..|a|] == a && (b + y)[..|a|] == b;
    assert (a + x)[|a|..] == x && (b + y)[|a|..] == y;
  }

  lemma WordsTell(v: nat, w: nat)
    requires v < Pow(256, 32) && w < Pow(256, 32) && WordBytes(v) == WordBytes(w)
    ensures v == w
  {
    hide Pow, Digits, Value;
    ValueOfDigits(v, 32, 256);
    ValueOfDigits(w, 32, 256);
  }

  lemma PaddingTells(d: seq<byte>, e: seq<byte>, x: seq<byte>, y: seq<byte>)
    requires |d| == |e| && RightPadded(d) + x == RightPadded(e) + y
    ensures d == e && x == y
  {
    SameFront(RightPadded(d), RightPadded(e), x, y);
    assert RightPadded(d)[..|d|] == d && RightPadded(e)[..|d|] == e;
  }

  /** A count or a length in front, below 2^64. */
  lemma CountTells(m: nat, n: nat, x: seq<byte>, y: seq<byte>)
    requires m < SIZE_T_COUNT && n < SIZE_T_COUNT && WordBytes(m) + x == WordBytes(n) + y
    ensures m == n && x == y
  {
    hide Pow, WordBytes;
    SameFront(WordBytes(m), WordBytes(n), x, y);
    AbiRoundTrip.WordHolds(0);
    WordsTell(m, n);
  }

  lemma BytesTell(d: seq<byte>, e: seq<byte>, x: seq<byte>, y: seq<byte>)
    requires |d| < SIZE_T_COUNT && |e| < SIZE_T_COUNT
    requires (WordBytes(|d|) + RightPadded(d)) + x == (WordBytes(|e|) + RightPadded(e)) + y
    ensures d == e && x == y
  {
    hide WordBytes, RightPadded;
    Associative(WordBytes(|d|), RightPadded(d), x);
    Associative(WordBytes(|e|), RightPadded(e), y);
    CountTells(|d|, |e|, RightPadded(d) + x, RightPadded(e) + y);
    PaddingTells(d, e, x, y);
  }

  // ---------------------------------------------------- what the type alone decides

  lemma {:induction false} TypeTellsKind(p: Param, q: Param, ty: Ty)
    requires HasType(p, ty) && HasType(q, ty)
    ensures IsDynamic(p) == IsDynamic(q) && InHead(p) == InHead(q) == !IsDynamic(p)
    decreases p
  {
    hide Limit;
    if p.FixedArray? {
      TypeTellsKind(p.elems[0], q.elems[0], ty.elem);
    }
  }

  /** The members that lie in the heads are the same. */
  ghost predicate SameInHeads(ps: seq<Param>, qs: seq<Param>) {
    if ps == [] then qs == []
    else
      && qs != [] && InHead(ps[0]) == InHead(qs[0]) && (InHead(ps[0]) ==> ps[0] == qs[0])
      && SameInHeads(ps[1..], qs[1..])
  }

  // ------------------------------------------------------------------- the theorem

  /** Two encodings of one type with anything behind them are equal only if the values are, and what is behind them. */
  lemma {:induction false} EncodingTells(p: Param, q: Param, ty: Ty, x: seq<byte>, y: seq<byte>)
    requires HasType(p, ty) && HasType(q, ty) && Encoded(p) + x == Encoded(q) + y
    ensures p == q && x == y
    decreases p, 1
  {
    hide WordBytes, RightPadded, EncodedSet, Pow, Limit, HaveTypes, AllHaveType;
    match p
    case Word(k, v) =>
      SameFront(WordBytes(v), WordBytes(q.value), x, y);
      AbiRoundTrip.CastKeeps(k, v);
      AbiRoundTrip.CastKeeps(k, q.value);
      WordsTell(v, q.value);
    case FixedBytes(n, d) => PaddingTells(d, q.data, x, y);
    case Bytes(d) => BytesTell(d, q.data, x, y);
    case String(d) => BytesTell(d, q.data, x, y);
    case FixedArray(es) =>
      AbiReference.CopiesTyped(es, ty.elem);
      AbiReference.CopiesTyped(q.elems, ty.elem);
      SetTells(es, q.elems, AbiReference.Copies(ty.elem, |es|), x, y);
    case Array(es) =>
      Associative(WordBytes(|es|), EncodedSet(es), x);
      Associative(WordBytes(|q.elems|), EncodedSet(q.elems), y);
      CountTells(|es|, |q.elems|, EncodedSet(es) + x, EncodedSet(q.elems) + y);
      AbiReference.CopiesTyped(es, ty.elem);
      AbiReference.CopiesTyped(q.elems, ty.elem);
      SetTells(es, q.elems, AbiReference.Copies(ty.elem, |es|), x, y);
    case Tuple(es) => SetTells(es, q.elems, ty.items, x, y);
  }

  /** The same for the members of a set, such as the parameters of a function. */
  lemma {:induction false} SetTells(ps: seq<Param>, qs: seq<Param>, tys: seq<Ty>, x: seq<byte>, y: seq<byte>)
    requires HaveTypes(ps, tys) && HaveTypes(qs, tys) && EncodedSet(ps) + x == EncodedSet(qs) + y
    ensures ps == qs && x == y
    decreases ps, 3
  {
    hide Heads, Tails, HeadSize, HaveTypes;
    Associative(Heads(ps, HeadSize(ps)), Tails(ps), x);
    Associative(Heads(qs, HeadSize(qs)), Tails(qs), y);
    HeadsTell(ps, qs, tys, HeadSize(ps), HeadSize(qs), Tails(ps) + x, Tails(qs) + y);
    TailsTell(ps, qs, tys, x, y);
  }

  /** The heads, from offsets that need not be the same. */
  lemma {:induction false} HeadsTell(ps: seq<Param>, qs: seq<Param>, tys: seq<Ty>, m: nat, n: nat, x: seq<byte>, y: seq<byte>)
    requires HaveTypes(ps, tys) && HaveTypes(qs, tys) && Heads(ps, m) + x == Heads(qs, n) + y
    ensures SameInHeads(ps, qs) && x == y
    decreases ps, 2
  {
    hide HasType, Encoded, InHead, IsDynamic, WordBytes, Size;
    if ps == [] {
      assert Heads(ps, m) + x == x && Heads(qs, n) + y == y;
    } else {
      var p, q := ps[0], qs[0];
      TypeTellsKind(p, q, tys[0]);
      if InHead(p) {
        Associative(Encoded(p), Heads(ps[1..], m), x);
        Associative(Encoded(q), Heads(qs[1..], n), y);
        EncodingTells(p, q, tys[0], Heads(ps[1..], m) + x, Heads(qs[1..], n) + y);
        HeadsTell(ps[1..], qs[1..], tys[1..], m, n, x, y);
      } else {
        var m', n' := m + Size(p), n + Size(q);
        Associative(WordBytes(m), Heads(ps[1..], m'), x);
        Associative(WordBytes(n), Heads(qs[1..], n'), y);
        SameFront(WordBytes(m), WordBytes(n), Heads(ps[1..], m') + x, Heads(qs[1..], n') + y);
        HeadsTell(ps[1..], qs[1..], tys[1..], m', n', x, y);
      }
    }
  }

  lemma {:induction false} TailsTell(ps: seq<Param>, qs: seq<Param>, tys: seq<Ty>, x: seq<byte>, y: seq<byte>)
    requires HaveTypes(ps, tys) && HaveTypes(qs, tys) && SameInHeads(ps, qs) && Tails(ps) + x == Tails(qs) + y
    ensures ps == qs && x == y
    decreases ps, 2
  {
    hide HasType, Encoded, InHead;
    if ps == [] {
      assert Tails(ps) + x == x && Tails(qs) + y == y;
    } else {
      var p, q := ps[0], qs[0];
      if InHead(p) {
        assert Tails(ps) == Tails(ps[1..]) && Tails(qs) == Tails(qs[1..]);
      } else {
        Associative(Encoded(p), Tails(ps[1..]), x);
        Associative(Encoded(q), Tails(qs[1..]), y);
        EncodingTells(p, q, tys[0], Tails(ps[1..]) + x, Tails(qs[1..]) + y);
      }
      TailsTell(ps[1..], qs[1..], tys[1..], x, y);
      assert ps == [p] + ps[1..] && qs == [q] + qs[1..];
    }
  }

  /** So what one call encodes never begins another: of one function, different arguments have different call data. */
  lemma CallDataTells(f: seq<byte>, ps: seq<Param>, qs: seq<Param>, tys: seq<Ty>)
    requires HaveTypes(ps, tys) && HaveTypes(qs, tys)
    ensures f + EncodedSet(ps) <= f + EncodedSet(qs) <==> ps == qs
  {
    hide EncodedSet, HaveTypes;
    var a, b := f + EncodedSet(ps), f + EncodedSet(qs);
    if a <= b {
      var rest := b[|a|..];
      assert b == a + rest;
      Associative(f, EncodedSet(ps), rest);
      SameFront(f, f, EncodedSet(ps) + rest, EncodedSet(qs));
      assert EncodedSet(qs) + [] == EncodedSet(qs);
      SetTells(ps, qs, tys, rest, []);
    }
  }
}
