/** operator== of addresses (libcfxcore/types/cfxaddress/address.cpp): exactly when it holds, and what it does not tell apart. */
module Cip37Equality {
  import opened Numbers
  import opened Cip37Convert
  import opened Cip37Polymod
  import opened Cip37Checksum
  import opened Cip37Address

  /** Checksum symbols are equal exactly when the registers are. */
  lemma SymbolsTellRegisters(x: seq<byte>, y: seq<byte>)
    ensures Digits(Num(Checksum(x), 40), 8, 32) == Digits(Num(Checksum(y), 40), 8, 32) <==> Checksum(x) == Checksum(y)
  {
    hide Checksum, Num, Digits, Pow, Value, Within;
    var c, d := Checksum(x), Checksum(y);
    ChecksumWithin(x);
    ChecksumWithin(y);
    RegistersEqual(c, d);
    FortyBits();
    NumBound(c, 40);
    NumBound(d, 40);
    ValueOfDigits(Num(c, 40), 8, 32);
    ValueOfDigits(Num(d, 40), 8, 32);
  }

  /** Bodies of one length have the same checksum exactly when their difference, run through the register, vanishes. */
  lemma BodiesAgree(network: string, a: seq<byte>, b: seq<byte>)
    requires |a| == |b|
    ensures ChecksumSymbols(network, a) == ChecksumSymbols(network, b) <==> Spread(0, a, b) == 0
  {
    hide Checksum, Num, Digits, Spread, PrefixSymbols;
    var p := PrefixSymbols(network) + [0];
    SymbolsTellRegisters(Covered(network, a) + ZEROS, Covered(network, b) + ZEROS);
    MiddleDecides(p, a, b, ZEROS);
  }

  lemma BodySize(h: seq<byte>, h': seq<byte>)
    requires |h| == |h'|
    ensures |BodyOf(h)| == |BodyOf(h')|
  {
    hide VersionByte, Digits, Fitted, Count;
  }

  /** Addresses built from bytes are equal under operator== exactly when network and type are and the registers over their bodies
      end alike; for bytes of one number, exactly when the difference of the bodies vanishes in the register. */
  lemma SameExactly(n: string, h: seq<byte>, m: string, h': seq<byte>)
    requires h != [] && h' != []
    ensures Same(FromHex(n, h), FromHex(m, h')) <==>
            n == m && TypeOf(h) == TypeOf(h')
            && Checksum(Covered(n, BodyOf(h)) + ZEROS) == Checksum(Covered(n, BodyOf(h')) + ZEROS)
    ensures |h| == |h'| ==>
              |BodyOf(h)| == |BodyOf(h')| &&
              (Same(FromHex(n, h), FromHex(m, h')) <==>
                n == m && TypeOf(h) == TypeOf(h') && Spread(0, BodyOf(h), BodyOf(h')) == 0)
  {
    hide BodyOf, Checksum, Num, Digits, Spread, Covered, TypeOf;
    SymbolsTellRegisters(Covered(n, BodyOf(h)) + ZEROS, Covered(n, BodyOf(h')) + ZEROS);
    if |h| == |h'| {
      BodySize(h, h');
      BodiesAgree(n, BodyOf(h), BodyOf(h'));
    }
  }

  /** Addresses whose bodies differ only within eight consecutive symbols are told apart. */
  lemma CloseAddressesDiffer(n: string, h: seq<byte>, h': seq<byte>, lo: nat)
    requires h != [] && |h| == |h'| && |BodyOf(h)| == |BodyOf(h')|
    requires forall i :: 0 <= i < |BodyOf(h)| && !(lo <= i < lo + 8) ==> BodyOf(h)[i] == BodyOf(h')[i]
    ensures Same(FromHex(n, h), FromHex(n, h')) <==> h == h'
  {
    hide BodyOf, BytesOf, Checksum, Spread, Covered, TypeOf, ChecksumSymbols, VersionByte;
    var a, b := BodyOf(h), BodyOf(h');
    SameExactly(n, h, n, h');
    WindowsAreDetected(a, b, lo);
    SameChecksum(a, b);
    HexThereAndBack(h);
    HexThereAndBack(h');
    if a == b {
      SameTail(VersionByte(|h|), h, h');
    }
  }

  lemma SameTail(v: byte, h: seq<byte>, h': seq<byte>)
    requires [v] + h == [v] + h'
    ensures h == h'
  {
    assert h == ([v] + h)[1..] && h' == ([v] + h')[1..];
  }

  // --------------------------------------------------------- two addresses that compare equal

  /** Five bytes in front regroup by themselves. */
  lemma RegroupFive(x: seq<byte>, y: seq<byte>)
    requires |x| == 5
    ensures Regroup(x + y, 8, 5) == Regroup(x, 8, 5) + Regroup(y, 8, 5)
  {
    hide Regroup, Pow, Value, Count, BitCount, Quot, Rem, Digits, Symbols;
    ByteSymbols(x);
    ByteSymbols(y);
    ByteSymbols(x + y);
    var pad := PadOf(|y|, 8, 5);
    var k := Count(|y|, 8, 5);
    MoreSymbols(|y|, pad, k);
    BytesBelow(x);
    BytesBelow(y);
    BytesBelow(x + y);
    Narrowed(x, 8, 5, 0);
    Narrowed(y, 8, 5, pad);
    Narrowed(x + y, 8, 5, pad);
    var cx, cy := Regroup(x, 8, 5), Regroup(y, 8, 5);
    ValueConcat(x, y, 256);
    ValueConcat(cx, cy, 32);
    TwoToTheEight();
    BlockPowers(|y|, pad, k);
    SumOfBlocks(Value(x, 256), Value(y, 256), Pow(256, |y|), Pow(2, pad), Pow(32, k));
    NoPower();
    ValueInjective(Regroup(x + y, 8, 5), cx + cy, 32);
  }

  lemma BytesBelow(x: seq<byte>)
    ensures AllBelow(x, Pow(2, 8)) && AllBelow(x, 256)
  {
    TwoToTheEight();
  }

  lemma MoreSymbols(n: nat, pad: nat, k: nat)
    requires pad < 5 && k == Count(n, 8, 5) && BitCount(k, 5) == BitCount(n, 8) + pad
    ensures Count(n + 5, 8, 5) == k + 8 && BitCount(k + 8, 5) == BitCount(n + 5, 8) + pad
    ensures Count(5, 8, 5) == 8 && BitCount(8, 5) == BitCount(5, 8)
  {
    hide Quot;
    CeilUnique(k + 8, pad, 5);
    CeilUnique(8, 0, 5);
  }

  lemma BlockPowers(n: nat, pad: nat, k: nat)
    requires BitCount(k, 5) == BitCount(n, 8) + pad
    ensures Pow(32, k) == Pow(256, n) * Pow(2, pad)
  {
    hide Pow, BitCount;
    TwoToTheEight();
    PowPow(5, k);
    PowPow(8, n);
    PowAdd(2, BitCount(n, 8), pad);
  }

  lemma SumOfBlocks(x: nat, y: nat, p: nat, z: nat, q: nat)
    requires q == p * z
    ensures (x * p + y) * z == x * q + y * z
  {
    Nest(x, p, y, z);
  }

  function FromFive(a: nat, b: nat, c: nat, d: nat, e: nat): nat {
    (((a * 256 + b) * 256 + c) * 256 + d) * 256 + e
  }

  function FromEight(a: nat, b: nat, c: nat, d: nat, e: nat, f: nat, g: nat, h: nat): nat {
    ((((((a * 32 + b) * 32 + c) * 32 + d) * 32 + e) * 32 + f) * 32 + g) * 32 + h
  }

  /** Five bytes and eight symbols that write the same number. */
  lemma FiveAre(s: seq<byte>, e: seq<byte>)
    requires |s| == 5 && |e| == 8 && AllBelow(e, 32)
    requires FromFive(s[0], s[1], s[2], s[3], s[4]) == FromEight(e[0], e[1], e[2], e[3], e[4], e[5], e[6], e[7])
    ensures Regroup(s, 8, 5) == e
  {
    hide Regroup, Digits, Value, Pow, FromFive, FromEight;
    FiveBytes(s);
    ValueOfFive(s);
    ValueOfEight(e);
    DigitsOfValue(e, 32);
  }

  lemma ValueOfFive(s: seq<nat>)
    requires |s| == 5
    ensures Value(s, 256) == FromFive(s[0], s[1], s[2], s[3], s[4])
  {
    hide Value;
    Nought(s, 256);
    Horner(s, 256, 0);
    Horner(s, 256, 1);
    Horner(s, 256, 2);
    Horner(s, 256, 3);
    Horner(s, 256, 4);
    assert s[..5] == s;
  }

  lemma ValueOfEight(s: seq<nat>)
    requires |s| == 8
    ensures Value(s, 32) == FromEight(s[0], s[1], s[2], s[3], s[4], s[5], s[6], s[7])
  {
    hide Value;
    Nought(s, 32);
    Horner(s, 32, 0);
    Horner(s, 32, 1);
    Horner(s, 32, 2);
    Horner(s, 32, 3);
    Horner(s, 32, 4);
    Horner(s, 32, 5);
    Horner(s, 32, 6);
    Horner(s, 32, 7);
    assert s[..8] == s;
  }

  lemma Horner(s: seq<nat>, b: nat, k: nat)
    requires k < |s|
    ensures Value(s[..k + 1], b) == Value(s[..k], b) * b + s[k]
  {
    assert s[..k + 1][..k] == s[..k];
  }

  lemma Nought(s: seq<nat>, b: nat)
    ensures Value(s[..0], b) == 0
  {
  }

  /** A byte by itself is two symbols, the second of them three bits and two zeros. */
  lemma LastByte(b: byte, x: byte, y: byte)
    requires x < 32 && y < 32 && b * 4 == x * 32 + y
    ensures Regroup([b], 8, 5) == [x, y]
  {
    hide Quot, Rem, Pow, Fitted, Digits, Value;
    QuotUnique(2, 2, 5);
    OneDigit(b, Pow(2, 8));
    TwoMoreBits(b);
    TwoDigits(x, y);
    TwoToTheEight();
    DigitsOfValue([x, y], 32);
  }

  lemma TwoMoreBits(v: nat)
    ensures Fitted(v, 8, 10) == v * 4
  {
    assert Pow(2, 2) == 4;
  }

  lemma TwoDigits(x: nat, y: nat)
    ensures Value([x, y], 32) == x * 32 + y
  {
    OneDigit(x, 32);
    assert [x, y][..1] == [x];
  }

  /** Four blocks of five bytes and one byte more. */
  lemma FourBlocks(a: seq<byte>, b: seq<byte>, c: seq<byte>, d: seq<byte>, last: byte, x: byte, y: byte)
    requires |a| == |b| == |c| == |d| == 5 && x < 32 && y < 32 && last * 4 == x * 32 + y
    ensures Regroup(a + (b + (c + (d + [last]))), 8, 5) ==
            Regroup(a, 8, 5) + (Regroup(b, 8, 5) + (Regroup(c, 8, 5) + (Regroup(d, 8, 5) + [x, y])))
  {
    hide Regroup;
    LastByte(last, x, y);
    RegroupFive(d, [last]);
    RegroupFive(c, d + [last]);
    RegroupFive(b, c + (d + [last]));
    RegroupFive(a, b + (c + (d + [last])));
  }

  const NO_BYTES: seq<byte> := [0, 0, 0, 0, 0]
  const NO_SYMBOLS: seq<byte> := [0, 0, 0, 0, 0, 0, 0, 0]

  /** What both bodies begin and end with. */
  const USER_HEAD: seq<byte> := [0, 0, 8, 0, 0, 0, 0, 0]
  const USER_TAIL: seq<byte> := [0, 0, 0, 0, 0, 0, 0, 0, 0, 0, 0, 0, 0, 0, 0, 0, 0]

  /** A user address, and another one. */
  const ONE_USER: seq<byte> := [0x10, 0, 0, 0, 0, 0, 0, 0, 0, 0, 0, 0, 0, 0, 0, 0, 0, 0, 0, 0]
  const OTHER_USER: seq<byte> := [0x10, 0, 0, 0, 0x0c, 0xc7, 0x95, 0xe4, 0x73, 0x08, 0, 0, 0, 0, 0, 0, 0, 0, 0, 0]

  lemma NoBytesAre()
    ensures Regroup(NO_BYTES, 8, 5) == NO_SYMBOLS
  {
    hide Regroup;
    FiveAre(NO_BYTES, NO_SYMBOLS);
  }

  lemma OneBody()
    ensures BodyOf(ONE_USER) == USER_HEAD + NO_ERROR + USER_TAIL
  {
    hide Regroup;
    var a: seq<byte> := [0, 0x10, 0, 0, 0];
    FiveAre(a, USER_HEAD);
    NoBytesAre();
    FourBlocks(a, NO_BYTES, NO_BYTES, NO_BYTES, 0, 0, 0);
    assert USER_HEAD + (NO_SYMBOLS + (NO_SYMBOLS + (NO_SYMBOLS + [0, 0]))) == USER_HEAD + NO_ERROR + USER_TAIL;
    assert [VersionByte(20)] + ONE_USER == a + (NO_BYTES + (NO_BYTES + (NO_BYTES + [0])));
  }

  lemma OtherBody()
    ensures BodyOf(OTHER_USER) == USER_HEAD + CODEWORD + USER_TAIL
  {
    hide Regroup;
    var a: seq<byte>, b: seq<byte>, c: seq<byte> := [0, 0x10, 0, 0, 0], [0x0c, 0xc7, 0x95, 0xe4, 0x73], [0x08, 0, 0, 0, 0];
    FiveAre(a, USER_HEAD);
    var e: seq<byte>, f: seq<byte> := [1, 19, 3, 25, 11, 25, 3, 19], [1, 0, 0, 0, 0, 0, 0, 0];
    FiveAre(b, e);
    FiveAre(c, f);
    NoBytesAre();
    FourBlocks(a, b, c, NO_BYTES, 0, 0, 0);
    assert USER_HEAD + (e + (f + (NO_SYMBOLS + [0, 0]))) == USER_HEAD + CODEWORD + USER_TAIL;
    assert [VersionByte(20)] + OTHER_USER == a + (b + (c + (NO_BYTES + [0])));
  }

  /** Any twenty bytes that begin with 0x10. */
  lemma UserType(hex: seq<byte>)
    requires |hex| == 20 && hex[0] == 0x10
    ensures TypeOf(hex) == User
  {
    assert hex[0] / 16 == 1;
  }

  /** Two user addresses of different bytes that operator== takes for one, on every network. */
  lemma TwoUsersCompareEqual(network: string)
    ensures TypeOf(ONE_USER) == User == TypeOf(OTHER_USER) && ONE_USER != OTHER_USER
    ensures Same(FromHex(network, ONE_USER), FromHex(network, OTHER_USER))
  {
    hide BodyOf, Spread, Checksum, Covered, ChecksumSymbols, TypeOf;
    UserType(ONE_USER);
    UserType(OTHER_USER);
    OneBody();
    OtherBody();
    SameExactly(network, ONE_USER, network, OTHER_USER);
    CodewordInBody(USER_HEAD, USER_TAIL);
    assert ONE_USER[4] != OTHER_USER[4];
  }

  lemma CodewordInBody(p: seq<byte>, s: seq<byte>)
    ensures Spread(0, p + NO_ERROR + s, p + CODEWORD + s) == 0
  {
    hide Spread, Checksum, CODEWORD, NO_ERROR;
    Nine();
    var a, b := p + CODEWORD + s, p + NO_ERROR + s;
    CodewordVanishes();
    MiddleDecides(p, CODEWORD, NO_ERROR, s);
    SameChecksum(b, a);
  }
}
