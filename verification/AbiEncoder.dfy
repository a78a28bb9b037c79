/** The two-pass encoder, its layout, and where its bookkeeping of sizes goes wrong (libcfxcore/abi/Parameters.cpp, Array.cpp,
    Bytes.cpp). */
module AbiEncoder {
  import opened Numbers
  import opened AbiParam

  /** The first pass writes this parameter itself and not an offset: it is static, and a fixed array or at most one word. */
  predicate InHead(p: Param) {
    !IsDynamic(p) && (p.FixedArray? || Size(p) <= WORD)
  }

  /** The bytes `encode` appends. */
  function Encoded(p: Param): seq<byte>
    decreases p, 1
  {
    match p
    case Word(_, v) => WordBytes(v)
    case FixedBytes(_, d) => RightPadded(d)
    case Bytes(d) => WordBytes(|d|) + RightPadded(d)
    case String(d) => WordBytes(|d|) + RightPadded(d)
    case FixedArray(es) => EncodedSet(es)
    case Array(es) => WordBytes(|es|) + EncodedSet(es)
    case Tuple(es) => EncodedSet(es)
  }

  function EncodedSet(ps: seq<Param>): seq<byte>
    decreases ps, 2
  {
    Heads(ps, HeadSize(ps)) + Tails(ps)
  }

  /** The first pass, with the running value of `headSize + dynamicOffset`. */
  function Heads(ps: seq<Param>, offset: nat): seq<byte>
    decreases ps, 0
  {
    if ps == [] then []
    else if InHead(ps[0]) then Encoded(ps[0]) + Heads(ps[1..], offset)
    else WordBytes(offset) + Heads(ps[1..], offset + Size(ps[0]))
  }

  /** The second pass. */
  function Tails(ps: seq<Param>): seq<byte>
    decreases ps, 0
  {
    if ps == [] then [] else (if InHead(ps[0]) then [] else Encoded(ps[0])) + Tails(ps[1..])
  }

  /** What `encode` writes behind the bytes is zeros, up to the next word: byte by byte, and as a number. */
  lemma BytesThenZeros(p: Param)
    requires p.FixedBytes? || p.Bytes? || p.String?
    ensures var e := if p.FixedBytes? then Encoded(p) else Encoded(p)[32..];
            var n := |p.data|;
            && (!p.FixedBytes? ==> |Encoded(p)| >= 32 && Encoded(p)[..32] == WordBytes(n))
            && |e| == Padded(n) && e[..n] == p.data && (forall i :: n <= i < |e| ==> e[i] == 0)
            && FromBytes(e) == FromBytes(p.data) * Pow(256, Padded(n) - n)
  {
    hide WordBytes, RightPadded, Padded, Pow, Value;
    var n := |p.data|;
    var e := RightPadded(p.data);
    assert Encoded(p) == if p.FixedBytes? then e else WordBytes(n) + e;
    var zeros: seq<byte> := seq(|e| - n, _ => 0);
    assert e == p.data + zeros;
    ValueConcat(p.data, zeros, 256);
    ZerosRead(|e| - n);
  }

  lemma ZerosRead(k: nat)
    ensures FromBytes(seq(k, _ => 0)) == 0
  {
    LeadingZeros(k, []);
    assert seq(k, _ => 0) + [] == seq(k, _ => 0);
  }

  // ------------------------------------------------------------ the methods

  /** `store`: the bytes of the number, and one zero byte for 0. */
  function Stored(value: nat): seq<byte> {
    if value == 0 then [0] else MinBytes(value)
  }

  lemma StoredFits(value: nat)
    requires value < Pow(256, 32)
    ensures 1 <= |Stored(value)| <= 32 && FromBytes(Stored(value)) == value
  {
    hide Pow;
    if value == 0 {
      assert Value([], 256) == 0;
      assert [0][..0] == [];
    } else {
      ByteLengthAtMost(value, 32);
      MinBytesValue(value);
    }
  }

  /** `paddedOnLeft`: the same number in at least 32 bytes. */
  method PaddedOnLeft(bytes: seq<byte>) returns (res: seq<byte>)
    ensures |bytes| >= 32 ==> res == bytes
    ensures |bytes| < 32 ==> |res| == 32
    ensures FromBytes(res) == FromBytes(bytes)
  {
    var paddingSize := 32 - |bytes|;
    if paddingSize <= 0 {
      return bytes;
    }
    res := seq(paddingSize, _ => 0);
    LeadingZeros(paddingSize, bytes);
    res := res + bytes;
  }

  /** The cast to uint256_t keeps the last 32 bytes of a number. */
  lemma WordOfRest(v: nat)
    ensures Rem(v, Pow(256, 32)) < Pow(256, 32) && WordBytes(Rem(v, Pow(256, 32))) == WordBytes(v)
  {
    hide Pow, Quot, Rem, Digits;
    var p := Pow(256, 32);
    QuotRem(v, p);
    LastDigits(Quot(v, p), Rem(v, p), 32, 256);
  }

  /** A word reads as the number modulo 2^256. */
  lemma WordReads(v: nat)
    ensures FromBytes(WordBytes(v)) == Rem(v, Pow(256, 32))
  {
    hide Pow, Quot, Rem, Digits, Value;
    WordOfRest(v);
    ValueOfDigits(Rem(v, Pow(256, 32)), 32, 256);
  }

  /** The shortest form of the number modulo 2^256, padded on the left, is its word. */
  method EncodeUInt256(v: nat, data: seq<byte>) returns (r: seq<byte>)
    ensures r == data + WordBytes(v)
  {
    hide Pow, Quot, Rem, Digits, Value, Stored;
    var value := Rem(v, Pow(256, 32));
    WordOfRest(v);
    StoredFits(value);
    var word := PaddedOnLeft(Stored(value));
    DigitsOfValue(word, 256);
    r := data + word;
  }

  method EncodeBytes(bytes: seq<byte>, data: seq<byte>) returns (r: seq<byte>)
    ensures r == data + (WordBytes(|bytes|) + RightPadded(bytes))
  {
    hide WordBytes, RightPadded;
    r := EncodeUInt256(|bytes|, data);
    r := EncodeFixedBytes(bytes, r);
    Associative(data, WordBytes(|bytes|), RightPadded(bytes));
  }

  method EncodeFixedBytes(bytes: seq<byte>, data: seq<byte>) returns (r: seq<byte>)
    ensures r == data + RightPadded(bytes)
  {
    r := data + bytes;
    r := r + seq(Padded(|bytes|) - |bytes|, _ => 0);
    assert r == data + RightPadded(bytes);
  }

  method EncodeArray(es: seq<Param>, data: seq<byte>) returns (r: seq<byte>)
    ensures r == data + (WordBytes(|es|) + EncodedSet(es))
    decreases es, 3
  {
    hide EncodedSet, WordBytes;
    r := EncodeUInt256(|es|, data);
    r := EncodeSet(es, r);
    assert (data + WordBytes(|es|)) + EncodedSet(es) == data + (WordBytes(|es|) + EncodedSet(es));
  }

  /** `encode(data)` of every class. */
  method Encode(p: Param, data: seq<byte>) returns (r: seq<byte>)
    ensures r == data + Encoded(p)
    decreases p, 4
  {
    hide EncodedSet, WordBytes, RightPadded;
    match p
    case Word(_, v) => r := EncodeUInt256(v, data);
    case FixedBytes(_, d) => r := EncodeFixedBytes(d, data);
    case Bytes(d) => r := EncodeBytes(d, data);
    case String(d) => r := EncodeBytes(d, data);
    case FixedArray(es) => r := EncodeSet(es, data);
    case Array(es) => r := EncodeArray(es, data);
    case Tuple(es) => r := EncodeSet(es, data);
  }

  /** `ParamSet::encode` */
  method EncodeSet(ps: seq<Param>, data: seq<byte>) returns (r: seq<byte>)
    ensures r == data + EncodedSet(ps)
    decreases ps, 2
  {
    hide Heads, Tails;
    var headSize := GetHeadSize(ps);
    r := FirstPass(ps, headSize, data);
    r := SecondPass(ps, r);
    assert (data + Heads(ps, headSize)) + Tails(ps) == data + (Heads(ps, headSize) + Tails(ps));
  }

  /** One turn of the first pass. */
  method WriteHead(p: Param, headSize: nat, dynamicOffset: nat, data: seq<byte>) returns (r: seq<byte>, offset: nat)
    ensures InHead(p) ==> r == data + Encoded(p) && offset == dynamicOffset
    ensures !InHead(p) ==> r == data + WordBytes(headSize + dynamicOffset) && offset == dynamicOffset + Size(p)
    decreases p, 5
  {
    hide Encoded, WordBytes, Size, IsDynamic;
    offset := dynamicOffset;
    if IsDynamic(p) {
      r := EncodeUInt256(headSize + dynamicOffset, data);
      offset := offset + Size(p);
    } else {
      if p.FixedArray? {
        r := Encode(p, data);
      } else {
        if Size(p) > WORD {
          r := EncodeUInt256(headSize + dynamicOffset, data);
          offset := offset + Size(p);
        } else {
          r := Encode(p, data);
        }
      }
    }
  }

  /** The same on member `i` of a set: what is written and what is still to be written make up the first pass. */
  method NextHead(ps: seq<Param>, i: nat, headSize: nat, dynamicOffset: nat, data: seq<byte>) returns (r: seq<byte>, offset: nat)
    requires i < |ps|
    ensures r + Heads(ps[i + 1..], headSize + offset) == data + Heads(ps[i..], headSize + dynamicOffset)
    decreases ps, 0
  {
    hide Heads, Encoded, WordBytes, Size, InHead;
    HeadsStep(data, ps, i, headSize + dynamicOffset);
    r, offset := WriteHead(ps[i], headSize, dynamicOffset, data);
  }

  method FirstPass(ps: seq<Param>, headSize: nat, data: seq<byte>) returns (r: seq<byte>)
    ensures r == data + Heads(ps, headSize)
    decreases ps, 1
  {
    var dynamicOffset: nat := 0;
    r := data;
    for i := 0 to |ps|
      invariant r + Heads(ps[i..], headSize + dynamicOffset) == data + Heads(ps, headSize)
    {
      hide Heads;
      r, dynamicOffset := NextHead(ps, i, headSize, dynamicOffset, r);
    }
    assert ps[|ps|..] == [] && r + [] == r;
  }

  method SecondPass(ps: seq<Param>, data: seq<byte>) returns (r: seq<byte>)
    ensures r == data + Tails(ps)
    decreases ps, 1
  {
    r := data;
    for i := 0 to |ps|
      invariant r + Tails(ps[i..]) == data + Tails(ps)
    {
      hide Tails, Encoded, Size;
      var p := ps[i];
      TailsStep(r, ps[i..]);
      assert ps[i..][0] == p && ps[i..][1..] == ps[i + 1..];
      if IsDynamic(p) {
        r := Encode(p, r);
      } else if !p.FixedArray? && Size(p) > WORD {
        r := Encode(p, r);
      }
    }
    assert ps[|ps|..] == [] && r + [] == r;
  }

  lemma HeadsStep(before: seq<byte>, ps: seq<Param>, i: nat, offset: nat)
    requires i < |ps|
    ensures before + Heads(ps[i..], offset) ==
            if InHead(ps[i]) then (before + Encoded(ps[i])) + Heads(ps[i + 1..], offset)
            else (before + WordBytes(offset)) + Heads(ps[i + 1..], offset + Size(ps[i]))
  {
    hide Encoded, WordBytes, Size, InHead;
    assert ps[i..][0] == ps[i] && ps[i..][1..] == ps[i + 1..];
  }

  lemma TailsStep(before: seq<byte>, ps: seq<Param>)
    requires ps != []
    ensures before + Tails(ps) == (if InHead(ps[0]) then before else before + Encoded(ps[0])) + Tails(ps[1..])
  {
    hide Encoded, Size;
    if InHead(ps[0]) {
      assert [] + Tails(ps[1..]) == Tails(ps[1..]);
    }
  }

  /** The two passes over a set of one member. */
  lemma OneHead(p: Param, o: nat)
    ensures Heads([p], o) == if InHead(p) then Encoded(p) else WordBytes(o)
    ensures Tails([p]) == if InHead(p) then [] else Encoded(p)
  {
    hide InHead, Encoded, WordBytes, Size;
    assert [p][1..] == [];
    assert Heads([], o) == [] && Tails([]) == [];
  }
}
