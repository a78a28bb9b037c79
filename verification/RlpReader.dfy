/** class RLP: the strict reader over a window of bytes (libdevcore/RLP.cpp, libdevcore/RLP.h). */
module RlpReader {
  import opened Numbers
  import opened RlpTree

  /** Lengths from here on are refused, so that a payload offset can be added without overflow. */
  const LENGTH_LIMIT: nat := SIZE_T_COUNT - 1 - 0x100

  /** The conversion flags. */
  datatype Strictness = Strictness(allowNonCanon: bool, throwOnFail: bool, failIfTooBig: bool, failIfTooSmall: bool)

  const STRICT := Strictness(false, true, true, false)
  const VERY_STRICT := Strictness(false, true, true, true)
  const THROW_IF_TOO_SMALL := Strictness(false, true, false, true)

  predicate IsNull(d: seq<byte>) {
    d == []
  }

  predicate IsSingleByte(d: seq<byte>) {
    d != [] && d[0] < DATA_IMM_LEN_START
  }

  predicate IsData(d: seq<byte>) {
    d != [] && d[0] < LIST_START
  }

  predicate IsList(d: seq<byte>) {
    d != [] && d[0] >= LIST_START
  }

  /** Two bytes may not encode what one byte could. */
  function RequireGood(d: seq<byte>): Outcome {
    if IsNull(d) then Fail(BadRLP)
    else if d[0] != DATA_IMM_LEN_START + 1 then Pass
    else if |d| < 2 || d[1] < DATA_IMM_LEN_START then Fail(BadRLP)
    else Pass
  }

  function LengthSize(d: seq<byte>): nat {
    if IsData(d) && d[0] > DATA_IND_LEN_ZERO then d[0] - DATA_IND_LEN_ZERO
    else if IsList(d) && d[0] > LIST_IND_LEN_ZERO then d[0] - LIST_IND_LEN_ZERO
    else 0
  }

  function PayloadOffset(d: seq<byte>): nat {
    if IsSingleByte(d) then 0 else 1 + LengthSize(d)
  }

  /** A length written in `size` bytes: no leading zero, at least 56, below the limit. */
  function LongLength(d: seq<byte>, size: nat): Result<nat>
    requires size > 0
  {
    if |d| <= size || d[1] == 0 then Failure(BadRLP)
    else
      var length := FromBytes(d[1..1 + size]);
      if length < 56 then Failure(BadRLP)
      else if length >= LENGTH_LIMIT then Failure(UndersizeRLP)
      else Success(length)
  }

  /** `length()`: the payload size the bytes announce. */
  function LengthOf(d: seq<byte>): Result<nat> {
    if IsNull(d) then Success(0)
    else
      var good := RequireGood(d);
      if good.Fail? then Failure(good.error)
      else if d[0] < DATA_IMM_LEN_START then Success(1)
      else if d[0] <= DATA_IND_LEN_ZERO then Success(d[0] - DATA_IMM_LEN_START)
      else if d[0] < LIST_START then LongLength(d, d[0] - DATA_IND_LEN_ZERO)
      else if d[0] <= LIST_IND_LEN_ZERO then Success(d[0] - LIST_START)
      else LongLength(d, d[0] - LIST_IND_LEN_ZERO)
  }

  /** The loops of `length()`. */
  method Length(d: seq<byte>) returns (r: Result<nat>)
    ensures r == LengthOf(d)
  {
    if IsNull(d) {
      return Success(0);
    }
    var good := RequireGood(d);
    if good.Fail? {
      return Failure(good.error);
    }
    var n := d[0];
    if n < DATA_IMM_LEN_START {
      return Success(1);
    } else if n <= DATA_IND_LEN_ZERO {
      return Success(n - DATA_IMM_LEN_START);
    } else if LIST_START <= n <= LIST_IND_LEN_ZERO {
      return Success(n - LIST_START);
    }
    // at most 8, the size of a size_t
    var lengthSize := n - (if n < LIST_START then DATA_IND_LEN_ZERO else LIST_IND_LEN_ZERO);
    if |d| <= lengthSize || d[1] == 0 {
      return Failure(BadRLP);
    }
    var ret := 0;
    for i := 0 to lengthSize
      invariant ret == FromBytes(d[1..1 + i])
    {
      assert d[1..1 + (i + 1)][..i] == d[1..1 + i];
      ret := ret * 256 + d[i + 1];
    }
    if ret < 56 {
      return Failure(BadRLP);
    }
    if ret >= LENGTH_LIMIT {
      return Failure(UndersizeRLP);
    }
    return Success(ret);
  }

  function ActualSize(d: seq<byte>): Result<nat> {
    if IsNull(d) then Success(0)
    else if IsSingleByte(d) then Success(1)
    else
      var length :- LengthOf(d);
      Success(PayloadOffset(d) + length)
  }

  /** `vector_ref::cropped`: out of bounds gives the empty window. */
  function Cropped(d: seq<byte>, begin: nat, count: nat): seq<byte> {
    if begin + count <= |d| then d[begin..begin + count] else []
  }

  function Payload(d: seq<byte>): Result<seq<byte>> {
    var length :- LengthOf(d);
    if length > |d| then Failure(BadRLP) else Success(Cropped(d, PayloadOffset(d), length))
  }

  /** The constructor: the bytes the new RLP refers to, or the exception. */
  function Construct(d: seq<byte>, s: Strictness): Result<seq<byte>> {
    var kept :- if s.failIfTooBig then
                  var size :- ActualSize(d);
                  if size >= |d| then Success(d) else if s.throwOnFail then Failure(OversizeRLP) else Success([])
                else Success(d);
    if s.failIfTooSmall then
      var size :- ActualSize(kept);
      if size <= |d| then Success(kept) else if s.throwOnFail then Failure(UndersizeRLP) else Success([])
    else Success(kept)
  }

  /** The size of the first item of `d`, which must be all there. */
  function SizeAsEncoded(d: seq<byte>): (r: Result<nat>)
    ensures r.Success? ==> r.value <= |d| && (d != [] ==> r.value > 0)
  {
    var kept :- Construct(d, THROW_IF_TOO_SMALL);
    ActualSize(kept)
  }

  lemma NothingHasSizeZero()
    ensures SizeAsEncoded([]) == Success(0)
  {
  }

  // ------------------------------------------------- which byte strings are items

  /** Size and payload of anything but a single byte. */
  lemma HeaderDecides(d: seq<byte>)
    requires d != [] && !IsSingleByte(d) && LengthOf(d).Success?
    ensures var offset, n := PayloadOffset(d), LengthOf(d).value;
            && ActualSize(d) == Success(offset + n)
            && (offset + n <= |d| ==> Payload(d) == Success(d[offset..offset + n]))
  {
    hide LengthOf, LengthSize;
  }

  lemma ShortIsCanonical(d: seq<byte>, n: nat)
    requires d != [] && !IsSingleByte(d) && LengthSize(d) == 0 && LengthOf(d) == Success(n) && 1 + n <= |d|
    ensures n < 56 && d[..1 + n] == if IsData(d) then EncodeData(d[1..1 + n]) else EncodeList(d[1..1 + n])
  {
    var p := d[1..1 + n];
    assert d[..1 + n] == [d[0]] + p;
    if n == 1 {
      assert p[0] == d[1];
    }
  }

  lemma LongIsCanonical(d: seq<byte>, n: nat)
    requires d != [] && LengthSize(d) > 0 && LengthOf(d) == Success(n) && 1 + LengthSize(d) + n <= |d|
    ensures var offset := 1 + LengthSize(d); var p := d[offset..offset + n];
            n < LENGTH_LIMIT && d[..offset + n] == if IsData(d) then EncodeData(p) else EncodeList(p)
  {
    hide LongLength, Header;
    var offset := 1 + LengthSize(d);
    var p := d[offset..offset + n];
    var start := if IsData(d) then DATA_IMM_LEN_START else LIST_START;
    LongLengthIsCanonical(d, LengthSize(d), start);
    assert d[..offset + n] == d[..offset] + p;
    LengthInRange(d, LengthSize(d));
  }

  lemma LengthInRange(d: seq<byte>, size: nat)
    requires size > 0 && LongLength(d, size).Success?
    ensures 56 <= LongLength(d, size).value < LENGTH_LIMIT
  {
  }

  /** The bytes that `LengthOf` and `PayloadOffset` take for an item are that item's canonical encoding. */
  lemma AcceptedIsCanonical(d: seq<byte>)
    requires d != [] && ActualSize(d).Success? && ActualSize(d).value <= |d|
    ensures Payload(d) == Success(d[PayloadOffset(d)..ActualSize(d).value])
    ensures var p := Payload(d).value;
            && |p| < LENGTH_LIMIT
            && d[..ActualSize(d).value] == if IsData(d) then EncodeData(p) else EncodeList(p)
  {
    if IsSingleByte(d) {
    } else {
      hide LengthOf, LengthSize, EncodeData, EncodeList;
      HeaderDecides(d);
      if LengthSize(d) == 0 {
        ShortIsCanonical(d, LengthOf(d).value);
      } else {
        LongIsCanonical(d, LengthOf(d).value);
      }
    }
  }

  /** An accepted long length is the shortest way to write itself. */
  lemma LongLengthIsCanonical(d: seq<byte>, size: nat, start: nat)
    requires 1 <= size <= 8 && LongLength(d, size).Success?
    requires start == DATA_IMM_LEN_START || start == LIST_START
    requires d[0] == start + 55 + size
    ensures d[..1 + size] == Header(start, LongLength(d, size).value)
  {
    var length := d[1..1 + size];
    MinBytesOfValue(length);
    assert d[..1 + size] == [d[0]] + length;
  }

  lemma ShortItem(start: nat, p: seq<byte>, rest: seq<byte>)
    requires start == DATA_IMM_LEN_START || start == LIST_START
    requires |p| < 56 && (start == DATA_IMM_LEN_START && |p| == 1 ==> p[0] >= 0x80)
    ensures var d := [start + |p|] + p + rest;
            && !IsSingleByte(d) && LengthOf(d) == Success(|p|) && PayloadOffset(d) == 1 && d[1..1 + |p|] == p
  {
    var d := [start + |p|] + p + rest;
    assert d[1..1 + |p|] == p;
    if |p| == 1 {
      assert d[1] == p[0];
    }
  }

  lemma LongItem(start: nat, p: seq<byte>, rest: seq<byte>)
    requires start == DATA_IMM_LEN_START || start == LIST_START
    requires 56 <= |p| < LENGTH_LIMIT
    ensures var d := Header(start, |p|) + p + rest; var offset := |Header(start, |p|)|;
            && d[0] == start + 55 + ByteLength(|p|) && !IsSingleByte(d)
            && LengthOf(d) == Success(|p|) && PayloadOffset(d) == offset && d[offset..offset + |p|] == p
  {
    hide LongLength, ByteLength, MinBytes;
    LongHeader(start, p, rest);
  }

  /** The encoding of a string item, whatever follows it, is read back with its exact extent. */
  lemma DataIsAccepted(p: seq<byte>, rest: seq<byte>)
    requires |p| < LENGTH_LIMIT
    ensures var d := EncodeData(p) + rest;
            && IsData(d) && ActualSize(d) == Success(|EncodeData(p)|)
            && Payload(d) == Success(p)
  {
    var d := EncodeData(p) + rest;
    if |p| == 1 && p[0] < 0x80 {
      assert d[..1] == p;
    } else {
      hide LengthOf, PayloadOffset, ActualSize, Payload, ByteLength, MinBytes;
      if |p| < 56 {
        ShortItem(DATA_IMM_LEN_START, p, rest);
      } else {
        LongItem(DATA_IMM_LEN_START, p, rest);
        EightBytes(|p|);
      }
      HeaderDecides(d);
    }
  }

  lemma ListIsAccepted(p: seq<byte>, rest: seq<byte>)
    requires |p| < LENGTH_LIMIT
    ensures var d := EncodeList(p) + rest;
            && IsList(d) && ActualSize(d) == Success(|EncodeList(p)|)
            && Payload(d) == Success(p)
  {
    hide LengthOf, PayloadOffset, ActualSize, Payload, ByteLength, MinBytes;
    var d := EncodeList(p) + rest;
    if |p| < 56 {
      ShortItem(LIST_START, p, rest);
    } else {
      LongItem(LIST_START, p, rest);
    }
    HeaderDecides(d);
  }

  lemma LongHeader(start: nat, p: seq<byte>, rest: seq<byte>)
    requires start == DATA_IMM_LEN_START || start == LIST_START
    requires 56 <= |p| < LENGTH_LIMIT
    ensures var d := Header(start, |p|) + p + rest; var size := ByteLength(|p|);
            && 1 <= size <= 8 && |d| >= 1 + size + |p| && d[0] == start + 55 + size
            && LongLength(d, size) == Success(|p|)
            && d[1 + size..1 + size + |p|] == p
  {
    hide ByteLength, MinBytes, LongLength, Header;
    var length := MinBytes(|p|);
    assert 1 <= |length| <= 8 && length[0] != 0 && FromBytes(length) == |p| by {
      EightBytes(|p|);
      MinBytesLeading(|p|);
      MinBytesValue(|p|);
    }
    HeaderIs(start, |p|);
    LongHeaderReads(start + 55 + |length|, length, p, rest);
  }

  lemma HeaderIs(start: nat, n: nat)
    requires start == DATA_IMM_LEN_START || start == LIST_START
    requires 56 <= n < LENGTH_LIMIT
    ensures 1 <= ByteLength(n) <= 8 && Header(start, n) == [start + 55 + ByteLength(n)] + MinBytes(n)
  {
    hide ByteLength, MinBytes;
    EightBytes(n);
    MinBytesLeading(n);
  }

  lemma LongHeaderReads(first: byte, length: seq<byte>, p: seq<byte>, rest: seq<byte>)
    requires length != [] && length[0] != 0 && FromBytes(length) == |p| && 56 <= |p| < LENGTH_LIMIT
    ensures var d := [first] + length + p + rest;
            && |d| >= 1 + |length| + |p| && d[0] == first
            && LongLength(d, |length|) == Success(|p|)
            && d[1 + |length|..1 + |length| + |p|] == p
  {
    var d := [first] + length + p + rest;
    assert d == [first] + (length + (p + rest));
    Slices(first, length, p, rest);
    LongLengthReads(d, length, |p|);
  }

  lemma LongLengthReads(d: seq<byte>, length: seq<byte>, n: nat)
    requires |d| > |length| > 0 && d[1..1 + |length|] == length
    requires length[0] != 0 && FromBytes(length) == n && 56 <= n < LENGTH_LIMIT
    ensures LongLength(d, |length|) == Success(n)
  {
    assert d[1] == d[1..1 + |length|][0];
  }

  lemma Slices(first: byte, length: seq<byte>, p: seq<byte>, rest: seq<byte>)
    ensures var d := [first] + (length + (p + rest));
            && d[1..1 + |length|] == length
            && d[1 + |length|..1 + |length| + |p|] == p
  {
  }
}
