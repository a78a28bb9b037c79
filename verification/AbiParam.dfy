/** Contract ABI parameters and the sizes their classes report (libcfxcore/abi). */
module AbiParam {
  import opened Numbers

  /** The unsigned number classes: all of them occupy one word. */
  datatype WordKind = UInt(bits: nat) | Bool | Address

  /**
   * The parameter classes: numbers, ParamByteArrayFix, ParamByteArray, ParamString,
   * ParamArrayFix, ParamArray, and Parameters (a tuple).
   */
  datatype Param =
    | Word(kind: WordKind, value: nat)
    | FixedBytes(n: nat, data: seq<byte>)
    | Bytes(data: seq<byte>)
    | String(data: seq<byte>)
    | FixedArray(elems: seq<Param>)
    | Array(elems: seq<Param>)
    | Tuple(elems: seq<Param>)

  predicate HasElems(p: Param) {
    p.FixedArray? || p.Array? || p.Tuple?
  }

  const WORD: nat := 32

  /** `paddedTo32` */
  function Padded(n: nat): (r: nat)
    ensures n <= r < n + 32
  {
    (n + 31) / 32 * 32
  }

  /** A number of whole words. */
  predicate Whole(n: nat) { n % 32 == 0 }

  lemma PaddedWhole(n: nat)
    ensures Whole(Padded(n)) && (Padded(n) == n <==> Whole(n))
  {
  }

  lemma WholeSum(m: nat, n: nat)
    requires Whole(m)
    ensures Whole(m + n) <==> Whole(n)
  {
  }

  lemma OneWhole()
    ensures Whole(0) && Whole(32)
  {
  }

  /** A 256-bit number as one big-endian word: `paddedOnLeft(store(value))`. */
  function WordBytes(v: nat): (r: seq<byte>)
    ensures |r| == 32
  {
    ToBytes(v, 32)
  }

  /** Bytes followed by zeros up to the next word boundary. */
  function RightPadded(d: seq<byte>): (r: seq<byte>)
    ensures |r| == Padded(|d|) && r[..|d|] == d && forall i :: |d| <= i < |r| ==> r[i] == 0
  {
    d + seq(Padded(|d|) - |d|, _ => 0)
  }

  /** `isDynamic()`. A fixed array asks its first element, which must exist; every tuple says yes. */
  predicate IsDynamic(p: Param)
    decreases p
  {
    match p
    case Word(_, _) => false
    case FixedBytes(_, _) => false
    case FixedArray(es) => es != [] && IsDynamic(es[0])
    case _ => true
  }

  /** `getSize()` */
  function Size(p: Param): nat
    decreases p, 1
  {
    match p
    case Word(_, _) => 32
    case FixedBytes(_, d) => Padded(|d|)
    case Bytes(d) => 32 + Padded(|d|)
    case String(d) => 32 + Padded(|d|)
    case FixedArray(es) => SetSize(es)
    case Array(es) => 32 + SetSize(es)
    case Tuple(es) => SetSize(es)
  }

  /** `ParamSet::getSize()`: it allows for an offset word with everything that is dynamic or wider than a word. */
  function SetSize(ps: seq<Param>): nat
    decreases ps, 0
  {
    if ps == [] then 0
    else (if IsDynamic(ps[0]) || Size(ps[0]) > WORD then 32 else 0) + Size(ps[0]) + SetSize(ps[1..])
  }

  /** `ParamSet::getHeadSize()` */
  function HeadSize(ps: seq<Param>): nat
  {
    if ps == [] then 0 else (if IsDynamic(ps[0]) then 32 else Size(ps[0])) + HeadSize(ps[1..])
  }

  lemma {:induction false} SizeWhole(p: Param)
    ensures Whole(Size(p))
    decreases p, 1
  {
    hide Whole, Padded, SetSize;
    OneWhole();
    match p
    case Word(_, _) =>
    case FixedBytes(_, d) => PaddedWhole(|d|);
    case Bytes(d) => PaddedWhole(|d|); WholeSum(32, Padded(|d|));
    case String(d) => PaddedWhole(|d|); WholeSum(32, Padded(|d|));
    case FixedArray(es) => SetSizeWhole(es);
    case Array(es) => SetSizeWhole(es); WholeSum(32, SetSize(es));
    case Tuple(es) => SetSizeWhole(es);
  }

  lemma {:induction false} SetSizeWhole(ps: seq<Param>)
    ensures Whole(SetSize(ps))
    decreases ps, 0
  {
    hide Whole, Size, IsDynamic;
    OneWhole();
    if ps != [] {
      SizeWhole(ps[0]);
      SetSizeWhole(ps[1..]);
      WholeSum(Size(ps[0]), SetSize(ps[1..]));
      WholeSum(32, Size(ps[0]) + SetSize(ps[1..]));
    }
  }

  /** The loop of `ParamSet::getSize()`; its final padding changes nothing, since all sizes are whole words. */
  method GetSetSize(ps: seq<Param>) returns (r: nat)
    ensures r == SetSize(ps)
  {
    var s := 0;
    for i := 0 to |ps|
      invariant s + SetSize(ps[i..]) == SetSize(ps)
    {
      assert ps[i..][0] == ps[i] && ps[i..][1..] == ps[i + 1..];
      if IsDynamic(ps[i]) || Size(ps[i]) > WORD {
        s := s + 32;
      }
      s := s + Size(ps[i]);
    }
    SetSizeWhole(ps);
    PaddedWhole(s);
    return Padded(s);
  }

  method GetHeadSize(ps: seq<Param>) returns (s: nat)
    ensures s == HeadSize(ps)
  {
    s := 0;
    for i := 0 to |ps|
      invariant s + HeadSize(ps[i..]) == HeadSize(ps)
    {
      assert ps[i..][0] == ps[i] && ps[i..][1..] == ps[i + 1..];
      if IsDynamic(ps[i]) {
        s := s + 32;
      } else {
        s := s + Size(ps[i]);
      }
    }
  }

  // ---------------------------------------------------------------- types

  datatype Ty =
    | TWord(kind: WordKind)
    | TFixedBytes(n: nat)
    | TBytes
    | TString
    | TFixedArray(elem: Ty, count: nat)
    | TArray(elem: Ty)
    | TTuple(items: seq<Ty>)

  function Limit(k: WordKind): nat {
    match k
    case UInt(bits) => Pow(2, bits)
    case Bool => 2
    case Address => Pow(2, 160)
  }

  predicate ValidKind(k: WordKind) {
    k.UInt? ==> 8 <= k.bits <= 256 && k.bits % 8 == 0
  }

  /** `p` is a value of type `ty` that its class can hold: numbers in range, `bytesN` with N bytes, at most 2^64 elements. */
  predicate HasType(p: Param, ty: Ty)
    decreases p, 1
  {
    match p
    case Word(k, v) => ty == TWord(k) && ValidKind(k) && v < Limit(k)
    case FixedBytes(n, d) => ty == TFixedBytes(n) && |d| == n && 1 <= n <= 32
    case Bytes(d) => ty == TBytes && |d| < SIZE_T_COUNT
    case String(d) => ty == TString && |d| < SIZE_T_COUNT
    case FixedArray(es) => ty.TFixedArray? && |es| == ty.count > 0 && AllHaveType(es, ty.elem)
    case Array(es) => ty.TArray? && |es| < SIZE_T_COUNT && AllHaveType(es, ty.elem)
    case Tuple(es) => ty.TTuple? && HaveTypes(es, ty.items)
  }

  predicate AllHaveType(ps: seq<Param>, ty: Ty)
    decreases ps, 0
  {
    ps == [] || (HasType(ps[0], ty) && AllHaveType(ps[1..], ty))
  }

  predicate HaveTypes(ps: seq<Param>, tys: seq<Ty>)
    decreases ps, 0
  {
    if ps == [] then tys == [] else tys != [] && HasType(ps[0], tys[0]) && HaveTypes(ps[1..], tys[1..])
  }
}
