/** Decoding in plain bytes, whatever wrote them, and an encoding in full (libcfxcore/abi/ParamNumber.h, Bytes.cpp,
    Parameters.cpp). */
module AbiBytes {
  import opened Numbers
  import opened AbiParam
  import opened AbiEncoder
  import opened AbiDecoder
  import AbiRoundTrip

  /** The last bytes of a word are what is left of it modulo a power of 256. */
  lemma LastBytes(w: seq<byte>, k: nat)
    requires k <= |w|
    ensures Rem(FromBytes(w), Pow(256, k)) == FromBytes(w[|w| - k..])
  {
    hide Pow, Rem, Quot, Value;
    var hi, lo := w[..|w| - k], w[|w| - k..];
    assert w == hi + lo;
    ValueConcat(hi, lo, 256);
    ValueBound(lo);
    QuotUnique(FromBytes(hi), FromBytes(lo), Pow(256, k));
  }

  lemma {:induction false} ValueBound(s: seq<byte>)
    ensures FromBytes(s) < Pow(256, |s|)
    decreases |s|
  {
    hide Pow;
    if s == [] {
      NoBytes();
    } else {
      ValueBound(s[1..]);
      assert s == [s[0]] + s[1..];
      HighByteFirst(s[0], s[1..]);
      OneMoreByte(|s|);
      MulMonotone(s[0], 255, Pow(256, |s| - 1));
    }
  }

  lemma NoBytes()
    ensures FromBytes([]) == 0 && Pow(256, 0) == 1
  {
  }

  lemma OneMoreByte(n: nat)
    requires n > 0
    ensures Pow(256, n) == 256 * Pow(256, n - 1)
  {
  }

  lemma {:induction false} NonzeroByte(s: seq<byte>)
    ensures FromBytes(s) == 0 <==> forall i :: 0 <= i < |s| ==> s[i] == 0
    decreases |s|
  {
    hide Pow;
    if s == [] {
      NoBytes();
    } else {
      var rest := s[1..];
      NonzeroByte(rest);
      assert s == [s[0]] + rest;
      HighByteFirst(s[0], rest);
      if s[0] != 0 {
        MulMonotone(1, s[0], Pow(256, |rest|));
      }
      assert forall i :: 1 <= i < |s| ==> s[i] == rest[i - 1];
    }
  }

  /** Any 32 bytes decode as a number: to its last bytes, as many as the type has, and to a bool as whether any is not zero. */
  lemma WordsDecode(t: Param, enc: seq<byte>, off: nat)
    requires t.Word? && ValidKind(t.kind) && off + 32 <= |enc|
    ensures var w := enc[off..off + 32];
            Decoded(t, enc, off) ==
            Got((Word(t.kind, match t.kind
                              case UInt(bits) => FromBytes(w[32 - bits / 8..])
                              case Address => FromBytes(w[12..])
                              case Bool => if forall i :: 0 <= i < 32 ==> w[i] == 0 then 0 else 1),
                 off + 32))
  {
    hide Pow, Rem, Quot, Value;
    var w := enc[off..off + 32];
    match t.kind
    case UInt(bits) =>
      BytesAreBits(bits / 8);
      LastBytes(w, bits / 8);
    case Address =>
      BytesAreBits(20);
      LastBytes(w, 20);
    case Bool =>
      NonzeroByte(w);
  }

  /** Bytes and strings decode to what their length word says, whatever stands behind them, or nothing at all. */
  lemma BytesDecode(t: Param, d: seq<byte>, enc: seq<byte>, off: nat)
    requires t.Bytes? || t.String?
    requires |d| < SIZE_T_COUNT && AbiRoundTrip.Lies(WordBytes(|d|) + d, enc, off)
    ensures Decoded(t, enc, off) == Got((if t.Bytes? then Bytes(d) else String(d), off + 32 + (|d| + 31) / 32 * 32))
  {
    hide WordBytes, ReadWord, Pow, Padded;
    AbiRoundTrip.LiesApart(WordBytes(|d|), d, enc, off);
    AbiRoundTrip.WordHolds(0);
    AbiRoundTrip.WordRead(|d|, enc, off);
    AbiRoundTrip.PaddedPlusWord(|d|);
    PaddedIs(|d|);
  }

  lemma PaddedIs(n: nat)
    ensures Padded(n) == (n + 31) / 32 * 32
  {
  }

  /** `bytesN` takes its N bytes, whatever stands behind them; of what it held before, only bytes past N stay. */
  lemma FixedBytesDecode(n: nat, was: seq<byte>, d: seq<byte>, enc: seq<byte>, off: nat)
    requires |d| == n && AbiRoundTrip.Lies(d, enc, off)
    ensures Decoded(FixedBytes(n, was), enc, off) ==
            Got((FixedBytes(n, d + (if |was| <= n then [] else was[n..])), off + (n + 31) / 32 * 32))
  {
  }

  /** Data that ends too soon is refused: before a word, before N bytes, before the bytes that a length word announces. */
  lemma TooShortIsRefused(t: Param, enc: seq<byte>, off: nat)
    requires t.Word? || t.FixedBytes? || t.Bytes? || t.String?
    requires |enc| < off + (if t.FixedBytes? then t.n else 32)
    ensures Decoded(t, enc, off) == Nothing
  {
  }

  /** `bytesN` wider than a word, which no type of Solidity has, would go behind the heads, with an offset. */
  lemma WideBytesGoBehind(d: seq<byte>, o: nat)
    requires |d| > 32
    ensures Heads([FixedBytes(|d|, d)], o) == WordBytes(o) && Tails([FixedBytes(|d|, d)]) == RightPadded(d)
  {
    hide WordBytes, RightPadded;
    PaddedIs(|d|);
    OneHead(FixedBytes(|d|, d), o);
  }

  // --------------------------------------------------------------- a call, word by word

  function Ascii(s: string): (r: seq<byte>)
    ensures |r| == |s|
  {
    seq(|s|, i requires 0 <= i < |s| => s[i] as int % 256)
  }

  function ZeroBytes(n: nat): (r: seq<byte>)
    ensures |r| == n
  {
    seq(n, _ => 0)
  }

  /** One member in front of a set, in the heads and in the tails. */
  lemma FirstMember(p: Param, ps: seq<Param>, o: nat)
    ensures Heads([p] + ps, o) == if InHead(p) then Encoded(p) + Heads(ps, o) else WordBytes(o) + Heads(ps, o + Size(p))
    ensures Tails([p] + ps) == (if InHead(p) then [] else Encoded(p)) + Tails(ps)
    ensures HeadSize([p] + ps) == (if IsDynamic(p) then 32 else Size(p)) + HeadSize(ps)
    ensures SetSize([p] + ps) == (if IsDynamic(p) || Size(p) > 32 then 32 else 0) + Size(p) + SetSize(ps)
  {
    hide InHead, Encoded, WordBytes, IsDynamic, Size;
    assert ([p] + ps)[1..] == ps;
  }

  lemma NoMembers(o: nat)
    ensures Heads([], o) == [] && Tails([]) == [] && HeadSize([]) == 0 && SetSize([]) == 0
  {
  }

  lemma PaddedText(d: seq<byte>)
    requires |d| <= 32
    ensures RightPadded(d) == d + ZeroBytes(if |d| == 0 then 0 else 32 - |d|)
  {
  }

  const NUMBERS: Param := Array([Word(UInt(32), 0x456), Word(UInt(32), 0x789)])

  lemma NumbersAre()
    ensures Encoded(NUMBERS) == WordBytes(2) + (WordBytes(0x456) + WordBytes(0x789)) && Size(NUMBERS) == 96 && IsDynamic(NUMBERS)
  {
    hide WordBytes;
    var x, y := Word(UInt(32), 0x456), Word(UInt(32), 0x789);
    NoMembers(64);
    FirstMember(y, [], 64);
    FirstMember(x, [y], 64);
    assert [y] + [] == [y] && [x] + [y] == [x, y];
    assert WordBytes(0x789) + [] == WordBytes(0x789);
    assert (WordBytes(0x456) + WordBytes(0x789)) + [] == WordBytes(0x456) + WordBytes(0x789);
  }

  const TEN_DATA := Ascii("1234567890")
  const HELLO_DATA := Ascii("Hello, world!")
  const TEN: Param := FixedBytes(10, TEN_DATA)
  const HELLO: Param := Bytes(HELLO_DATA)

  lemma ExampleMembers()
    ensures var a := Word(UInt(256), 0x123);
            && InHead(a) && !IsDynamic(a) && Size(a) == 32 && Encoded(a) == WordBytes(0x123)
            && InHead(TEN) && !IsDynamic(TEN) && Size(TEN) == 32 && Encoded(TEN) == TEN_DATA + ZeroBytes(22)
            && !InHead(HELLO) && IsDynamic(HELLO) && Encoded(HELLO) == WordBytes(13) + (HELLO_DATA + ZeroBytes(19))
            && !InHead(NUMBERS) && IsDynamic(NUMBERS) && Size(NUMBERS) == 96
            && Encoded(NUMBERS) == WordBytes(2) + (WordBytes(0x456) + WordBytes(0x789))
  {
    hide WordBytes, Ascii, RightPadded;
    NumbersAre();
    PaddedText(TEN_DATA);
    PaddedText(HELLO_DATA);
  }

  lemma ExampleHeads()
    ensures var ps := [Word(UInt(256), 0x123)] + ([NUMBERS] + ([TEN] + ([HELLO] + [])));
            HeadSize(ps) == 0x80
            && Heads(ps, 0x80) == WordBytes(0x123) + (WordBytes(0x80) + ((TEN_DATA + ZeroBytes(22)) + (WordBytes(0xe0) + [])))
  {
    hide WordBytes, Encoded, InHead, IsDynamic, Size, Heads, HeadSize, SetSize, TEN, HELLO, NUMBERS;
    ExampleMembers();
    NoMembers(0xe0 + Size(HELLO));
    FirstMember(HELLO, [], 0xe0);
    FirstMember(TEN, [HELLO] + [], 0xe0);
    FirstMember(NUMBERS, [TEN] + ([HELLO] + []), 0x80);
    FirstMember(Word(UInt(256), 0x123), [NUMBERS] + ([TEN] + ([HELLO] + [])), 0x80);
  }

  lemma ExampleTails()
    ensures var ps := [Word(UInt(256), 0x123)] + ([NUMBERS] + ([TEN] + ([HELLO] + [])));
            Tails(ps) == [] + ((WordBytes(2) + (WordBytes(0x456) + WordBytes(0x789)))
                               + ([] + ((WordBytes(13) + (HELLO_DATA + ZeroBytes(19))) + [])))
  {
    hide WordBytes, Encoded, InHead, IsDynamic, Size, Tails, TEN, HELLO, NUMBERS;
    ExampleMembers();
    NoMembers(0);
    FirstMember(HELLO, [], 0);
    FirstMember(TEN, [HELLO] + [], 0);
    FirstMember(NUMBERS, [TEN] + ([HELLO] + []), 0);
    FirstMember(Word(UInt(256), 0x123), [NUMBERS] + ([TEN] + ([HELLO] + [])), 0);
  }

  /** f(0x123, [0x456, 0x789], "1234567890", "Hello, world!") of the type f(uint256,uint32[],bytes10,bytes): the nine words that
      the Solidity ABI specification gives for it (section "Use of Dynamic Types") and that tests/test_main.cpp expects. */
  lemma DynamicTypesExample()
    ensures EncodedSet([Word(UInt(256), 0x123), NUMBERS, TEN, HELLO]) ==
            (WordBytes(0x123) + (WordBytes(0x80) + ((TEN_DATA + ZeroBytes(22)) + WordBytes(0xe0))))
            + ((WordBytes(2) + (WordBytes(0x456) + WordBytes(0x789))) + (WordBytes(13) + (HELLO_DATA + ZeroBytes(19))))
  {
    hide WordBytes, Heads, Tails, HeadSize, TEN, HELLO, NUMBERS;
    var ps := [Word(UInt(256), 0x123)] + ([NUMBERS] + ([TEN] + ([HELLO] + [])));
    assert ps == [Word(UInt(256), 0x123), NUMBERS, TEN, HELLO];
    ExampleHeads();
    ExampleTails();
    assert WordBytes(0xe0) + [] == WordBytes(0xe0);
    NothingAdded(WordBytes(13) + (HELLO_DATA + ZeroBytes(19)), WordBytes(2) + (WordBytes(0x456) + WordBytes(0x789)));
  }

  lemma NothingAdded(x: seq<byte>, y: seq<byte>)
    ensures [] + (y + ([] + (x + []))) == y + x
  {
  }
}
