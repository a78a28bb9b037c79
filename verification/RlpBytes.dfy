/** The bytes of RLP in plain numbers: what the encoder writes first, and what the reader makes of every first byte
    (libdevcore/RLP.cpp, libdevcore/RLP.h). */
module RlpBytes {
  import opened Numbers
  import opened RlpTree
  import opened RlpReader
  import RlpInt
  import RlpWriter

  /** A string: itself, if it is one byte below 128; behind 128 and its length, if it is shorter than 56 bytes; otherwise behind
      183, the length of its length, and its length without leading zeros. */
  lemma StringBytes(d: seq<byte>) returns (l: seq<byte>)
    requires |d| < SIZE_T_COUNT
    ensures FromBytes(l) == |d| && |l| <= 8 && (l != [] ==> l[0] != 0)
    ensures EncodeData(d) ==
            if |d| == 1 && d[0] < 128 then d else if |d| < 56 then [128 + |d|] + d else [183 + |l|] + l + d
  {
    hide MinBytes, ByteLength, FromBytes;
    l := LengthBytes(|d|);
  }

  /** A list: behind 192 and the length of its payload, or 247, the length of that length, and it. */
  lemma ListBytes(p: seq<byte>) returns (l: seq<byte>)
    requires |p| < SIZE_T_COUNT
    ensures FromBytes(l) == |p| && |l| <= 8 && (l != [] ==> l[0] != 0)
    ensures EncodeList(p) == if |p| < 56 then [192 + |p|] + p else [247 + |l|] + l + p
  {
    hide MinBytes, ByteLength, FromBytes;
    l := LengthBytes(|p|);
  }

  lemma LengthBytes(n: nat) returns (l: seq<byte>)
    requires n < SIZE_T_COUNT
    ensures l == MinBytes(n) && FromBytes(l) == n && |l| == ByteLength(n) <= 8 && (l != [] ==> l[0] != 0)
  {
    hide FromBytes;
    l := MinBytes(n);
    EightBytes(n);
    MinBytesValue(n);
    if n > 0 {
      MinBytesLeading(n);
    }
  }

  /** A payload shorter than 56 bytes is announced by the first byte alone; 129 must not stand before a byte below 128. */
  lemma ShortLengthsRead(first: byte, rest: seq<byte>)
    requires first <= 183 || 192 <= first <= 247
    ensures LengthOf([first] + rest) ==
            if first < 128 then Success(1)
            else if first == 129 && (rest == [] || rest[0] < 128) then Failure(BadRLP)
            else Success(if first < 192 then first - 128 else first - 192)
  {
    var d := [first] + rest;
    assert d[0] == first && (rest != [] ==> d[1] == rest[0]);
  }

  /** A longer one by the bytes behind it, which must all be there, must not begin with a zero and must not write less than
      56, nor more than a size_t holds when a header is added. */
  lemma LongLengthsRead(first: byte, rest: seq<byte>)
    requires 183 < first < 192 || 247 < first
    ensures var k := if first < 192 then first - 183 else first - 247;
            LengthOf([first] + rest) ==
            if |rest| < k || rest[0] == 0 || FromBytes(rest[..k]) < 56 then Failure(BadRLP)
            else if FromBytes(rest[..k]) >= 18446744073709551359 then Failure(UndersizeRLP)
            else Success(FromBytes(rest[..k]))
  {
    hide FromBytes;
    var k := if first < 192 then first - 183 else first - 247;
    var d := [first] + rest;
    assert d[0] == first && (rest != [] ==> d[1] == rest[0]);
    if |rest| >= k {
      assert d[1..1 + k] == rest[..k];
    }
  }

  /** `append(_s, true)` writes the bytes from the first that is not zero on: the same number. */
  lemma {:induction false} CompactedBytes(d: seq<byte>)
    ensures var c := RlpWriter.Compacted(d);
            && (c != [] ==> c[0] != 0) && FromBytes(c) == FromBytes(d)
            && |c| <= |d| && d[|d| - |c|..] == c && forall i :: 0 <= i < |d| - |c| ==> d[i] == 0
    decreases |d|
  {
    hide FromBytes;
    if d != [] && d[0] == 0 {
      CompactedBytes(d[1..]);
      assert d == seq(1, _ => 0) + d[1..];
      LeadingZeros(1, d[1..]);
      var c := RlpWriter.Compacted(d);
      assert d[|d| - |c|..] == d[1..][|d| - 1 - |c|..];
      assert forall i :: 1 <= i < |d| ==> d[i] == d[1..][i - 1];
    }
  }

  /** `payload()`: the bytes behind the header; none, if they are not all there though they would fit by themselves; and the
      exception, if they would not. */
  lemma PayloadIs(d: seq<byte>)
    ensures Payload(d) ==
            match LengthOf(d)
            case Failure(e) => Failure(e)
            case Success(n) =>
              if n > |d| then Failure(BadRLP)
              else if PayloadOffset(d) + n > |d| then Success([])
              else Success(d[PayloadOffset(d)..PayloadOffset(d) + n])
  {
    hide LengthOf, PayloadOffset;
  }

  /** Nothing is good without a byte, or with 129 before a byte below 128 or before none; `isInt` throws for that, and for a
      string that ends before its payload begins. */
  lemma GoodIs(d: seq<byte>)
    ensures RequireGood(d) == if d == [] || (d[0] == 129 && (|d| == 1 || d[1] < 128)) then Fail(BadRLP) else Pass
    ensures RlpInt.IsInt(d) ==
            if d == [] then Success(false)
            else if RequireGood(d).Fail? then Failure(BadRLP)
            else if d[0] < 128 then Success(d[0] != 0)
            else if d[0] == 128 then Success(true)
            else if d[0] >= 192 then Success(false)
            else
              var first := if d[0] <= 183 then 1 else 1 + d[0] - 183;
              if |d| <= first then Failure(BadRLP) else Success(d[first] != 0)
  {
  }

  /** The constructor, for all flags: what it does with bytes to spare and with bytes missing. */
  lemma ConstructByFlags(d: seq<byte>, s: Strictness)
    ensures Construct(d, s) ==
            if !s.failIfTooBig && !s.failIfTooSmall then Success(d)
            else
              match ActualSize(d)
              case Failure(e) => Failure(e)
              case Success(size) =>
                if s.failIfTooBig && size < |d| then if s.throwOnFail then Failure(OversizeRLP) else Success([])
                else if s.failIfTooSmall && size > |d| then if s.throwOnFail then Failure(UndersizeRLP) else Success([])
                else Success(d)
  {
    hide LengthOf, PayloadOffset;
  }

  /** Without other arguments it takes exactly one item. */
  lemma VeryStrictIsExact(d: seq<byte>)
    ensures Construct(d, VERY_STRICT).Success? <==> ActualSize(d) == Success(|d|)
  {
    hide ActualSize;
    ConstructByFlags(d, VERY_STRICT);
  }
}
