/** Integers in RLP: `isInt` and `toInt` (libdevcore/RLP.cpp, libdevcore/RLP.h). */
module RlpInt {
  import opened Numbers
  import opened RlpTree
  import opened RlpReader

  function IsInt(d: seq<byte>): Result<bool> {
    if IsNull(d) then Success(false)
    else
      var good := RequireGood(d);
      var n := d[0];
      if good.Fail? then Failure(good.error)
      else if n < DATA_IMM_LEN_START then Success(n != 0)
      else if n == DATA_IMM_LEN_START then Success(true)
      else if n <= DATA_IND_LEN_ZERO then if |d| <= 1 then Failure(BadRLP) else Success(d[1] != 0)
      else if n < LIST_START then
        var first := 1 + n - DATA_IND_LEN_ZERO;
        if |d| <= first then Failure(BadRLP) else Success(d[first] != 0)
      else Success(false)
  }

  /** The integer types read: a fixed number of bytes (uint8_t to u256), or bigint. */
  datatype IntType = Fixed(bytes: nat) | Bigint

  /** `intTraits<T>::maxSize` */
  function MaxSize(t: IntType): nat {
    if t.Fixed? then t.bytes else 0xffff_ffff
  }

  /** `toInt<T>(flags)` */
  function ToInt(d: seq<byte>, t: IntType, flags: Strictness): Result<nat> {
    var good := RequireGood(d);
    if good.Fail? then Failure(good.error)
    else
      var isInt :- IsInt(d);
      if (!isInt && !flags.allowNonCanon) || IsList(d) then
        if flags.throwOnFail then Failure(BadCast) else Success(0)
      else
        var p :- Payload(d);
        if |p| > MaxSize(t) && flags.failIfTooBig then
          if flags.throwOnFail then Failure(BadCast) else Success(0)
        else if t.Fixed? then Success(Rem(FromBytes(p), Pow(256, t.bytes)))
        else Success(FromBytes(p))
  }

  lemma {:induction false} ValueFits(n: nat, b: nat)
    requires n < b
    ensures Rem(n, b) == n
  {
  }

  /** Where `d` begins with an item, `isInt` says that it is a string without a leading zero, that is, the shortest form of its
      number. */
  lemma IsIntMeansMinimal(d: seq<byte>)
    requires d != [] && ActualSize(d).Success? && ActualSize(d).value <= |d|
    ensures IsInt(d) == Success(IsData(d) && Payload(d).value == MinBytes(FromBytes(Payload(d).value)))
  {
    hide MinBytes, FromBytes, EncodeData, EncodeList;
    AcceptedIsCanonical(d);
    var p := Payload(d).value;
    MinBytesOfValue(p);
    if IsData(d) && p != [] {
      assert p[0] == d[PayloadOffset(d)];
    }
  }

  /** `toInt` on an item, for all flags: strings in shortest form, or any strings with AllowNonCanon, as far as they fit or need
      not; what is left of the number in the type. Otherwise the exception, or 0 without ThrowOnFail. */
  lemma IntByFlags(d: seq<byte>, t: IntType, flags: Strictness)
    requires d != [] && ActualSize(d).Success? && ActualSize(d).value <= |d|
    ensures var p := Payload(d).value; var n := FromBytes(p);
            ToInt(d, t, flags) ==
            if IsData(d) && (p == MinBytes(n) || flags.allowNonCanon) &&
               (|p| <= (if t.Fixed? then t.bytes else 4294967295) || !flags.failIfTooBig)
            then Success(if t.Fixed? then Rem(n, Pow(256, t.bytes)) else n)
            else if flags.throwOnFail then Failure(BadCast) else Success(0)
  {
    hide MinBytes, FromBytes, EncodeData, EncodeList, IsInt, Rem, Pow;
    AcceptedIsCanonical(d);
    IsIntMeansMinimal(d);
  }

  lemma StrictInt(d: seq<byte>, t: IntType)
    requires d != [] && ActualSize(d).Success? && ActualSize(d).value <= |d|
    ensures var p := Payload(d).value;
            ToInt(d, t, STRICT) ==
            if IsData(d) && p == MinBytes(FromBytes(p)) && |p| <= MaxSize(t) then Success(FromBytes(p)) else Failure(BadCast)
  {
    hide MinBytes, FromBytes, ToInt, Rem, Pow;
    IntByFlags(d, t, STRICT);
    var p := Payload(d).value;
    if |p| <= MaxSize(t) {
      FixedReads(p, t);
    }
  }

  /** An integer whose payload is announced, fits the window by itself, but runs past its end: `payload()` is then empty. */
  predicate CutShort(d: seq<byte>) {
    IsInt(d) == Success(true) && LengthOf(d).Success? && LengthOf(d).value <= |d| < PayloadOffset(d) + LengthOf(d).value
  }

  /** Where no item is all there, strict `toInt` throws, but for the integers cut short, which read as 0. */
  lemma PartialInt(d: seq<byte>, t: IntType)
    requires d == [] || ActualSize(d).Failure? || ActualSize(d).value > |d|
    ensures if CutShort(d) then ToInt(d, t, STRICT) == Success(0) else ToInt(d, t, STRICT).Failure?
  {
    hide Rem, Pow, FromBytes;
    NothingReads(t);
  }

  lemma NothingReads(t: IntType)
    ensures FromBytes([]) == 0 && (t.Fixed? ==> Rem(0, Pow(256, t.bytes)) == 0)
  {
  }

  /** Strict `toInt`, on any bytes: it reads back what `append(bigint)` wrote, whatever follows, and accepts nothing else but
      integers cut short. */
  lemma StrictIntsAreEncodings(d: seq<byte>, t: IntType, n: nat)
    requires MaxSize(t) < LENGTH_LIMIT
    ensures ToInt(d, t, STRICT) == Success(n) <==>
            (EncodeData(MinBytes(n)) <= d && ByteLength(n) <= MaxSize(t)) || (CutShort(d) && n == 0)
  {
    hide MinBytes, FromBytes, EncodeData, EncodeList, ActualSize, ToInt, Payload, MaxSize, IsInt, LengthOf;
    var e := EncodeData(MinBytes(n));
    MinBytesValue(n);
    if e <= d && ByteLength(n) <= MaxSize(t) {
      assert d == e + d[|e|..];
      DataIsAccepted(MinBytes(n), d[|e|..]);
      StrictInt(d, t);
    }
    if d == [] || ActualSize(d).Failure? || ActualSize(d).value > |d| {
      PartialInt(d, t);
    } else {
      NotCutShort(d);
      AcceptedIsCanonical(d);
      StrictInt(d, t);
    }
  }

  lemma NotCutShort(d: seq<byte>)
    requires d != [] && ActualSize(d).Success? && ActualSize(d).value <= |d|
    ensures !CutShort(d)
  {
    hide IsInt;
  }

  /** Two bytes of a three-byte integer read as 0. */
  lemma CutShortReadsAsZero(t: IntType)
    ensures CutShort([0x82, 0x05]) && ToInt([0x82, 0x05], t, STRICT) == Success(0)
  {
    PartialInt([0x82, 0x05], t);
  }

  lemma FixedReads(p: seq<byte>, t: IntType)
    requires |p| <= MaxSize(t)
    ensures t.Fixed? ==> Rem(FromBytes(p), Pow(256, t.bytes)) == FromBytes(p)
  {
    if t.Fixed? {
      ValueBound(p, 256);
      PowMonotone(256, |p|, t.bytes);
      ValueFits(FromBytes(p), Pow(256, t.bytes));
    }
  }
}
