/** The sequential decoder, which fills a template and reads offset words only to drop them (libcfxcore/abi). */
module AbiDecoder {
  import opened Numbers
  import opened AbiParam

  /** Nothing: the code returns false, or a null pointer. Broken: it throws, or uses an invalid range. */
  datatype Attempt<+T> = Nothing | Broken | Got(value: T) {
    predicate IsFailure() {
      !Got?
    }

    function PropagateFailure<U>(): Attempt<U>
      requires !Got?
    {
      if Nothing? then Nothing else Broken
    }

    function Extract(): T
      requires Got?
    {
      value
    }
  }

  /** `ABI::decode`: one word, big-endian. */
  function ReadWord(enc: seq<byte>, off: nat): Option<nat> {
    if enc == [] || |enc| < WORD + off then None else Some(FromBytes(enc[off..off + 32]))
  }

  /** The cast from uint256_t to the type of the number, or the mask of ParamUIntN. */
  function Cast(k: WordKind, v: nat): nat {
    if k == Bool then if v != 0 then 1 else 0 else Rem(v, Pow(2, if k.UInt? then k.bits else 160))
  }

  /** The innermost first element, whose type name the names of the arrays around it begin with. */
  function Innermost(p: Param): Param
    decreases p
  {
    if (p.Array? || p.FixedArray?) && p.elems != [] then Innermost(p.elems[0]) else p
  }

  /** The widths that have a class of their own. */
  predicate OwnClass(bits: nat) {
    bits == 8 || bits == 16 || bits == 32 || bits == 64 || bits == 256
  }

  /** `ParamFactory::make` on the type name of `p`. Of the name of a fixed array it sees only the beginning: bytes4[2] makes a
      bytes4, uint24[2] a uint24; uint256[2] and bytes[2] throw; other names with brackets, and tuples, make nothing. */
  function Made(p: Param): Attempt<Param>
    decreases p
  {
    match p
    case Word(k, _) => Got(Word(k, 0))
    case FixedBytes(n, _) => Got(FixedBytes(n, seq(n, _ => 0)))
    case Bytes(_) => Got(Bytes([]))
    case String(_) => Got(String([]))
    case Array(es) =>
      if es == [] then Nothing
      else
        var elem :- Made(es[0]);
        Got(Array([elem]))
    case FixedArray(_) =>
      var inner := Innermost(p);
      if inner.Word? && inner.kind.UInt? then
        if OwnClass(inner.kind.bits) then Broken else Got(Word(inner.kind, 0))
      else if inner.FixedBytes? then Got(FixedBytes(inner.n, seq(inner.n, _ => 0)))
      else if inner.Bytes? then Broken
      else Nothing
    case Tuple(_) => Nothing
  }

  /** The elements of an array template, grown to `count` with fresh parameters that `make` gives for the type of the first one;
      a null pointer is not added. */
  function Grown(es: seq<Param>, count: nat): seq<Param>
    requires es != []
  {
    var made := Made(es[0]);
    if count <= |es| || !made.Got? then es else es + seq(count - |es|, _ => made.value)
  }

  /** Growing calls `make`, and it throws. */
  predicate GrowthThrows(es: seq<Param>, count: nat)
    requires es != []
  {
    count > |es| && Made(es[0]).Broken?
  }

  function Depth(p: Param): nat
    decreases p, 1
  {
    if HasElems(p) then 1 + MaxDepth(p.elems) else 0
  }

  function MaxDepth(ps: seq<Param>): nat
    decreases ps, 0
  {
    if ps == [] then 0
    else
      var first, rest := Depth(ps[0]), MaxDepth(ps[1..]);
      if first < rest then rest else first
  }

  /** `decode(encoded, offset)`: the filled parameter and the offset after it. */
  function Decoded(t: Param, enc: seq<byte>, off: nat): Attempt<(Param, nat)>
    decreases Depth(t), 0, 0
  {
    match t
    case Word(k, _) =>
      var v := ReadWord(enc, off);
      if v.None? then Nothing else Got((Word(k, Cast(k, v.value)), off + 32))
    case FixedBytes(n, d) =>
      if |enc| < off + n then Nothing
      else Got((FixedBytes(n, enc[off..off + n] + (if |d| > n then d[n..] else [])), off + Padded(n)))
    case Bytes(_) =>
      var r :- DecodedBytes(enc, off);
      Got((Bytes(r.0), r.1))
    case String(_) =>
      var r :- DecodedBytes(enc, off);
      Got((String(r.0), r.1))
    case Tuple(es) =>
      var r :- DecodedSet(es, enc, off);
      Got((Tuple(r.0), r.1))
    case Array(es) =>
      var r :- DecodedCounted(es, enc, off);
      Got((Array(r.0), off + Padded(r.1 - off)))
    case FixedArray(es) =>
      var r :- if IsDynamic(t) then DecodedCounted(es, enc, off) else DecodedSet(es, enc, off);
      Got((FixedArray(r.0), off + Padded(r.1 - off)))
  }

  /** `decodeBytes`. A length so large that the sum in its check wraps around passes the check, for a range that is none. */
  function DecodedBytes(enc: seq<byte>, off: nat): Attempt<(seq<byte>, nat)> {
    var len := ReadWord(enc, off);
    if len.None? || len.value >= SIZE_T_COUNT then Nothing
    else
      var end := off + 32 + len.value;
      if end <= |enc| then Got((enc[off + 32..end], off + Padded(32 + len.value)))
      else if end >= SIZE_T_COUNT then Broken
      else Nothing
  }

  /** The template for as many elements as the length word says, which must be at least the number that it has. */
  function Counted(es: seq<Param>, enc: seq<byte>, off: nat): Attempt<seq<Param>> {
    var len := ReadWord(enc, off);
    if len.None? || len.value >= SIZE_T_COUNT || es == [] || |es| > len.value then Nothing
    else if GrowthThrows(es, len.value) then Broken
    else Got(Grown(es, len.value))
  }

  /** A length word and then that many elements. */
  function DecodedCounted(es: seq<Param>, enc: seq<byte>, off: nat): (r: Attempt<(seq<Param>, nat)>)
    ensures r.Got? ==> r.value.1 >= off
    decreases MaxDepth(es), 3, |es|
  {
    var grown :- Counted(es, enc, off);
    GrownDepth(es, ReadWord(enc, off).value);
    DecodedSet(grown, enc, off + 32)
  }

  /** `ParamSet::decode` */
  function DecodedSet(ps: seq<Param>, enc: seq<byte>, off: nat): (r: Attempt<(seq<Param>, nat)>)
    ensures r.Got? ==> |r.value.0| == |ps| && r.value.1 >= off
    decreases MaxDepth(ps), 2, |ps|
  {
    var small :- DecodedHeads(ps, enc, off);
    DecodedTails(ps, small.0, enc, small.1)
  }

  /** The first pass: static members are decoded, the offset word of a dynamic one is read and dropped. */
  function DecodedHeads(ps: seq<Param>, enc: seq<byte>, off: nat): (r: Attempt<(seq<Param>, nat)>)
    ensures r.Got? ==> |r.value.0| == |ps| && r.value.1 >= off
    decreases MaxDepth(ps), 1, |ps|
  {
    if ps == [] then Got(([], off))
    else
      var first :- if IsDynamic(ps[0]) then
                     if ReadWord(enc, off).None? then Nothing else Got((ps[0], off + 32))
                   else Decoded(ps[0], enc, off);
      var rest :- DecodedHeads(ps[1..], enc, first.1);
      Got(([first.0] + rest.0, rest.1))
  }

  /** The second pass: the dynamic members of the template `ps`, in order, wherever the offset has come to. */
  function DecodedTails(ps: seq<Param>, filled: seq<Param>, enc: seq<byte>, off: nat): (r: Attempt<(seq<Param>, nat)>)
    requires |filled| == |ps|
    ensures r.Got? ==> |r.value.0| == |ps| && r.value.1 >= off
    decreases MaxDepth(ps), 1, |ps|
  {
    if ps == [] then Got(([], off))
    else
      var first :- if IsDynamic(ps[0]) then Decoded(ps[0], enc, off) else Got((filled[0], off));
      var rest :- DecodedTails(ps[1..], filled[1..], enc, first.1);
      Got(([first.0] + rest.0, rest.1))
  }

  lemma {:induction false} MadeDepth(p: Param)
    requires Made(p).Got?
    ensures Depth(Made(p).value) <= Depth(p)
    decreases p
  {
    if p.Array? {
      MadeDepth(p.elems[0]);
      OneDepth(Made(p.elems[0]).value);
    }
  }

  lemma OneDepth(p: Param)
    ensures MaxDepth([p]) == Depth(p)
  {
    assert [p][1..] == [];
    assert MaxDepth([p][1..]) == 0;
  }

  lemma {:induction false} GrownDepth(es: seq<Param>, count: nat)
    requires es != []
    ensures MaxDepth(Grown(es, count)) <= MaxDepth(es)
  {
    var made := Made(es[0]);
    if made.Got? && count > |es| {
      MadeDepth(es[0]);
      CopiesDepth(es, made.value, count - |es|);
    }
  }

  lemma {:induction false} CopiesDepth(es: seq<Param>, p: Param, n: nat)
    ensures MaxDepth(es + seq(n, _ => p)) <= if Depth(p) < MaxDepth(es) then MaxDepth(es) else Depth(p)
    decreases |es| + n
  {
    var all := es + seq(n, _ => p);
    if es != [] {
      assert all[1..] == es[1..] + seq(n, _ => p);
      CopiesDepth(es[1..], p, n);
    } else if n > 0 {
      assert all[1..] == [] + seq(n - 1, _ => p);
      CopiesDepth([], p, n - 1);
    }
  }

  // -------------------------------------------------------------- what goes wrong

  /** The check of `decodeBytes`, whose sum wraps around at 2^64, lets through what lies in the data, and every length for
      which the sum wraps. */
  lemma LengthCheckPasses(enc: seq<byte>, off: nat, len: nat)
    requires |enc| < SIZE_T_COUNT && off + 32 <= |enc| && len < SIZE_T_COUNT
    ensures !(|enc| < Wrapped(off + 32 + len)) <==> off + 32 + len <= |enc| || off + 32 + len >= SIZE_T_COUNT
  {
    WrappedIs(off + 32 + len);
  }

  /** A sum of two numbers of type size_t. */
  function Wrapped(n: nat): nat {
    n % SIZE_T_COUNT
  }

  lemma WrappedIs(n: nat)
    requires n < 2 * SIZE_T_COUNT
    ensures Wrapped(n) == if n < SIZE_T_COUNT then n else n - SIZE_T_COUNT
  {
  }

  /** Decoding bytes breaks exactly when the length word is a size_t whose sum with the offset is none. */
  lemma BytesBreak(enc: seq<byte>, off: nat)
    requires |enc| < SIZE_T_COUNT
    ensures DecodedBytes(enc, off).Broken? <==>
            ReadWord(enc, off).Some? && SIZE_T_COUNT - off - 32 <= ReadWord(enc, off).value < SIZE_T_COUNT
  {
  }

  /** The length word 2^64 - 1 breaks the decoding of bytes and of strings. */
  lemma HugeLengthBreaks(t: Param)
    requires t.Bytes? || t.String?
    ensures Decoded(t, WordBytes(SIZE_T_COUNT - 1), 0) == Broken
  {
    hide Pow, Digits, Value;
    var enc := WordBytes(SIZE_T_COUNT - 1);
    PowEight();
    PowMonotone(256, 8, 32);
    ValueOfDigits(SIZE_T_COUNT - 1, 32, 256);
    assert enc[0..32] == enc;
    BytesBreak(enc, 0);
  }

  /** What `make` gives for some names of fixed arrays. */
  lemma FixedArrayNamesAreCut()
    ensures Made(FixedArray([FixedBytes(4, [0, 0, 0, 0]), FixedBytes(4, [0, 0, 0, 0])])) == Got(FixedBytes(4, seq(4, _ => 0)))
    ensures Made(FixedArray([Word(UInt(24), 0), Word(UInt(24), 0)])) == Got(Word(UInt(24), 0))
    ensures Made(FixedArray([Word(UInt(256), 0), Word(UInt(256), 0)])) == Broken == Made(FixedArray([Bytes([]), Bytes([])]))
    ensures Made(FixedArray([Word(Bool, 0), Word(Bool, 0)])) == Nothing == Made(FixedArray([String([]), String([])]))
  {
  }

  /** The unsigned widths with a class of their own are those that throw. */
  lemma OwnClassesThrow(bits: nat)
    ensures Made(FixedArray([Word(UInt(bits), 0)])) == Broken <==> bits in {8, 16, 32, 64, 256}
  {
    var w := Word(UInt(bits), 0);
    assert Innermost(w) == w;
    assert Innermost(FixedArray([w])) == w;
    assert OwnClass(bits) <==> bits in {8, 16, 32, 64, 256};
  }

  // ------------------------------------------------------------------- the methods

  ghost function Joined(done: seq<Param>, r: Attempt<(seq<Param>, nat)>): Attempt<(seq<Param>, nat)> {
    if r.Got? then Got((done + r.value.0, r.value.1)) else r
  }

  lemma JoinedNone(r: Attempt<(seq<Param>, nat)>)
    ensures Joined([], r) == r
  {
    if r.Got? {
      assert [] + r.value.0 == r.value.0;
    }
  }

  /** The result of a pass whose first member gave `first` and whose other members gave `rest`. */
  function Consed(first: Attempt<(Param, nat)>, rest: Attempt<(seq<Param>, nat)>): Attempt<(seq<Param>, nat)>
    requires first.Got?
  {
    if rest.Got? then Got(([first.value.0] + rest.value.0, rest.value.1)) else rest
  }

  lemma JoinedStep(done: seq<Param>, p: Param, off: nat, rest: Attempt<(seq<Param>, nat)>)
    ensures Joined(done, Consed(Got((p, off)), rest)) == Joined(done + [p], rest)
  {
    if rest.Got? {
      Associative(done, [p], rest.value.0);
    }
  }

  /** `decodeBytes`, with the sum of its check in size_t; the range of a sum that wrapped ends before it begins. */
  method DecodeBytes(enc: seq<byte>, off: nat) returns (r: Attempt<(seq<byte>, nat)>)
    requires |enc| < SIZE_T_COUNT
    ensures r == DecodedBytes(enc, off)
  {
    hide Wrapped;
    var len256 := ReadWord(enc, off);
    if len256.None? || len256.value >= SIZE_T_COUNT {
      return Nothing;
    }
    var len, start := len256.value, off + 32;
    WrappedIs(start + len);
    var end := Wrapped(start + len);
    if |enc| < end {
      return Nothing;
    }
    if end < start {
      return Broken;
    }
    var offset := start + len;
    return Got((enc[start..end], off + Padded(offset - off)));
  }

  /** The length check of the array classes and the loop that grows the template. */
  method DecodeLength(es: seq<Param>, enc: seq<byte>, off: nat) returns (r: Attempt<seq<Param>>)
    ensures r == Counted(es, enc, off)
  {
    var word := ReadWord(enc, off);
    if word.None? || word.value >= SIZE_T_COUNT {
      return Nothing;
    }
    var len := word.value;
    var n := |es|;
    if n == 0 || n > len {
      return Nothing;
    }
    var grown := es;
    if n < len {
      var first := es[0];
      for i := 0 to len - n
        invariant i > 0 ==> !Made(first).Broken?
        invariant grown == if Made(first).Got? then es + seq(i, _ => Made(first).value) else es
      {
        var made := Made(first);
        if made.Broken? {
          return Broken;
        }
        if made.Got? {
          grown := grown + [made.value];
        }
      }
    }
    return Got(grown);
  }

  /** `decode` of every class. */
  method Decode(t: Param, enc: seq<byte>, off: nat) returns (r: Attempt<(Param, nat)>)
    requires |enc| < SIZE_T_COUNT
    ensures r == Decoded(t, enc, off)
    decreases Depth(t), 0
  {
    hide DecodedSet, Grown, DecodedBytes, Counted, Padded, IsDynamic, ReadWord, Cast;
    match t
    case Word(k, _) =>
      var v := ReadWord(enc, off);
      return if v.None? then Nothing else Got((Word(k, Cast(k, v.value)), off + 32));
    case FixedBytes(n, d) =>
      if |enc| < off + n {
        return Nothing;
      }
      var decoded := if |d| < n then d + seq(n - |d|, _ => 0) else d;
      assert decoded[n..] == if |d| > n then d[n..] else [];
      decoded := enc[off..off + n] + decoded[n..];
      return Got((FixedBytes(n, decoded), off + Padded(n)));
    case Bytes(_) =>
      var bytes :- DecodeBytes(enc, off);
      return Got((Bytes(bytes.0), bytes.1));
    case String(_) =>
      var bytes :- DecodeBytes(enc, off);
      return Got((String(bytes.0), bytes.1));
    case Tuple(es) =>
      var filled :- DecodeSet(es, enc, off);
      return Got((Tuple(filled.0), filled.1));
    case Array(es) =>
      var grown :- DecodeLength(es, enc, off);
      CountedDepth(es, enc, off);
      var filled :- DecodeSet(grown, enc, off + 32);
      return Got((Array(filled.0), off + Padded(filled.1 - off)));
    case FixedArray(es) =>
      var elems, start := es, off;
      if IsDynamic(t) {
        elems :- DecodeLength(es, enc, off);
        CountedDepth(es, enc, off);
        start := off + 32;
      }
      var filled :- DecodeSet(elems, enc, start);
      return Got((FixedArray(filled.0), off + Padded(filled.1 - off)));
  }

  lemma CountedDepth(es: seq<Param>, enc: seq<byte>, off: nat)
    requires Counted(es, enc, off).Got?
    ensures MaxDepth(Counted(es, enc, off).value) <= MaxDepth(es)
  {
    hide Grown;
    GrownDepth(es, ReadWord(enc, off).value);
  }

  /** `ParamSet::decode` */
  method DecodeSet(ps: seq<Param>, enc: seq<byte>, off: nat) returns (r: Attempt<(seq<Param>, nat)>)
    requires |enc| < SIZE_T_COUNT
    ensures r == DecodedSet(ps, enc, off)
    decreases MaxDepth(ps), 2
  {
    hide DecodedHeads, DecodedTails;
    var small :- DecodeHeads(ps, enc, off);
    r := DecodeTails(ps, small.0, enc, small.1);
  }

  lemma {:induction false} MemberDepth(ps: seq<Param>, i: nat)
    requires i < |ps|
    ensures Depth(ps[i]) <= MaxDepth(ps)
  {
    if i > 0 {
      MemberDepth(ps[1..], i - 1);
    }
  }

  method DecodeHeads(ps: seq<Param>, enc: seq<byte>, off: nat) returns (r: Attempt<(seq<Param>, nat)>)
    requires |enc| < SIZE_T_COUNT
    ensures r == DecodedHeads(ps, enc, off)
    decreases MaxDepth(ps), 1
  {
    var filled, offset := ps, off;
    JoinedNone(DecodedHeads(ps, enc, off));
    for i := 0 to |ps|
      invariant |filled| == |ps| && filled[i..] == ps[i..]
      invariant DecodedHeads(ps, enc, off) == Joined(filled[..i], DecodedHeads(ps[i..], enc, offset))
    {
      hide Decoded, IsDynamic, ReadWord, DecodedHeads;
      HeadStep(ps, i, enc, offset);
      MemberDepth(ps, i);
      var p := ps[i];
      if IsDynamic(p) {
        var index := ReadWord(enc, offset);
        if index.None? {
          return Nothing;
        }
        offset := offset + 32;
      } else {
        var member :- Decode(p, enc, offset);
        p, offset := member.0, member.1;
      }
      JoinedStep(filled[..i], p, offset, DecodedHeads(ps[i + 1..], enc, offset));
      filled := filled[i := p];
      assert filled[..i + 1] == filled[..i] + [p];
    }
    assert ps[|ps|..] == [] && filled[..|ps|] == filled && filled + [] == filled;
    return Got((filled, offset));
  }

  /** The first pass from member `i` on, one member unfolded. */
  lemma HeadStep(ps: seq<Param>, i: nat, enc: seq<byte>, off: nat)
    requires i < |ps|
    ensures var first := if IsDynamic(ps[i]) then
                           if ReadWord(enc, off).None? then Nothing else Got((ps[i], off + 32))
                         else Decoded(ps[i], enc, off);
            DecodedHeads(ps[i..], enc, off) ==
            if first.Got? then Consed(first, DecodedHeads(ps[i + 1..], enc, first.value.1)) else first.PropagateFailure()
  {
    hide Decoded, IsDynamic, ReadWord;
    assert ps[i..][0] == ps[i] && ps[i..][1..] == ps[i + 1..];
  }

  method DecodeTails(ps: seq<Param>, heads: seq<Param>, enc: seq<byte>, off: nat) returns (r: Attempt<(seq<Param>, nat)>)
    requires |heads| == |ps| && |enc| < SIZE_T_COUNT
    ensures r == DecodedTails(ps, heads, enc, off)
    decreases MaxDepth(ps), 1
  {
    var filled, offset := heads, off;
    JoinedNone(DecodedTails(ps, heads, enc, off));
    for i := 0 to |ps|
      invariant |filled| == |ps| && filled[i..] == heads[i..]
      invariant DecodedTails(ps, heads, enc, off) == Joined(filled[..i], DecodedTails(ps[i..], heads[i..], enc, offset))
    {
      hide Decoded, IsDynamic, DecodedTails;
      TailStep(ps, heads, i, enc, offset);
      MemberDepth(ps, i);
      var p := heads[i];
      if IsDynamic(ps[i]) {
        var member :- Decode(ps[i], enc, offset);
        p, offset := member.0, member.1;
      }
      JoinedStep(filled[..i], p, offset, DecodedTails(ps[i + 1..], heads[i + 1..], enc, offset));
      filled := filled[i := p];
      assert filled[..i + 1] == filled[..i] + [p];
    }
    assert ps[|ps|..] == [] && filled[..|ps|] == filled && filled + [] == filled;
    return Got((filled, offset));
  }

  lemma TailStep(ps: seq<Param>, heads: seq<Param>, i: nat, enc: seq<byte>, off: nat)
    requires i < |ps| == |heads|
    ensures var first := if IsDynamic(ps[i]) then Decoded(ps[i], enc, off) else Got((heads[i], off));
            DecodedTails(ps[i..], heads[i..], enc, off) ==
            if first.Got? then Consed(first, DecodedTails(ps[i + 1..], heads[i + 1..], enc, first.value.1))
            else first.PropagateFailure()
  {
    hide Decoded, IsDynamic;
    assert ps[i..][0] == ps[i] && ps[i..][1..] == ps[i + 1..];
    assert heads[i..][0] == heads[i] && heads[i..][1..] == heads[i + 1..];
  }
}
