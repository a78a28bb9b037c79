/** CalcChecksum (libcfxcore/types/cfxaddress/checksum.cpp): the eight symbols that make the register end at the residue zero. */
module Cip37Checksum {
  import opened Numbers
  import Cip37Convert
  import opened Cip37Polymod

  const ZEROS: seq<byte> := [0, 0, 0, 0, 0, 0, 0, 0]

  /** `c >> k` */
  function Drop(c: word, k: nat): word
    decreases k
  {
    if k == 0 then c else Drop(Half(c), k - 1)
  }

  /** The low five bits of every character of the network prefix. */
  function PrefixSymbols(prefix: string): (r: seq<byte>)
    ensures |r| == |prefix|
  {
    seq(|prefix|, i requires 0 <= i < |prefix| => prefix[i] as int % 32)
  }

  /** What the checksum is taken over, up to the place of the checksum itself. */
  function Covered(prefix: string, body: seq<byte>): seq<byte> {
    PrefixSymbols(prefix) + [0] + body
  }

  /** The eight symbols, as the digits to base 32 of the register's number. */
  function ChecksumSymbols(prefix: string, body: seq<byte>): (r: seq<byte>)
    ensures |r| == 8
  {
    var n := Num(Checksum(Covered(prefix, body) + ZEROS), 40);
    SymbolsBelow(n);
    Digits(n, 8, 32)
  }

  lemma SymbolsBelow(n: nat)
    ensures AllBelow(Digits(n, 8, 32), 32)
  {
    DigitsBelow(n, 8, 32);
  }

  // --------------------------------------------------------- bits and digits

  lemma {:induction false} DropDrop(c: word, j: nat, k: nat)
    ensures Drop(Drop(c, j), k) == Drop(c, j + k)
    decreases j
  {
    hide Half;
    if j > 0 {
      DropDrop(Half(c), j - 1, k);
    }
  }

  /** The number of `j + k` bits is made of the high `j` and the low `k`. */
  lemma {:induction false} NumSplit(c: word, j: nat, k: nat)
    ensures Num(c, j + k) == Num(Drop(c, k), j) * Pow(2, k) + Num(c, k)
    decreases k
  {
    hide Half, Odd;
    if k > 0 {
      NumSplit(Half(c), j, k - 1);
      Doubles(Num(Drop(c, k), j), Pow(2, k - 1));
    }
  }

  lemma Doubles(x: nat, p: nat)
    ensures x * (2 * p) == 2 * (x * p)
  {
  }

  lemma {:induction false} ZeroNum(k: nat)
    ensures Num(0, k) == 0 && Drop(0, k) == 0
    decreases k
  {
    if k > 0 {
      assert Half(0) == 0 && !Odd(0);
      ZeroNum(k - 1);
    }
  }

  /** Words without bits beyond the first `k` are told apart by their numbers. */
  lemma {:induction false} NumInjective(c: word, d: word, k: nat)
    requires Drop(c, k) == 0 && Drop(d, k) == 0 && Num(c, k) == Num(d, k)
    ensures c == d
    decreases k
  {
    hide Half, Odd, Join;
    if k > 0 {
      JoinHalf(c);
      JoinHalf(d);
      NumInjective(Half(c), Half(d), k - 1);
    }
  }

  lemma FiveHalves(c: word)
    ensures Half(Half(Half(Half(Half(c))))) == c >> 5
  {
  }

  lemma {:induction false} DropFive(c: word)
    ensures Drop(c, 5) == c >> 5
  {
    hide Half;
    FiveHalves(c);
    assert Drop(c, 5) == Drop(Half(Half(c)), 3) == Drop(Half(Half(Half(Half(c)))), 1);
  }

  lemma ShiftWithin(c: word, m: nat)
    requires 0 < m <= 8 && Within(c, m)
    ensures Within(c >> 5, m - 1)
  {
  }

  lemma ZeroWithin(c: word)
    requires Within(c, 0)
    ensures c == 0
  {
  }

  /** A register that took `m` symbols from zero holds 5m bits. */
  lemma {:induction false} WithinBits(c: word, m: nat)
    requires m <= 8 && Within(c, m)
    ensures Drop(c, 5 * m) == 0
    decreases m
  {
    hide Drop, Within;
    if m == 0 {
      ZeroWithin(c);
      ZeroNum(0);
    } else {
      ShiftWithin(c, m);
      WithinBits(c >> 5, m - 1);
      DropFive(c);
      DropDrop(c, 5, 5 * (m - 1));
    }
  }

  lemma RegisterWithin(c: word)
    ensures c < REGISTER_LIMIT <==> Within(c, 8)
  {
  }

  /** Two registers with the same number are the same. */
  lemma RegistersEqual(c: word, d: word)
    requires Within(c, 8) && Within(d, 8)
    ensures c == d <==> Num(c, 40) == Num(d, 40)
  {
    hide Drop, Num, Within;
    WithinBits(c, 8);
    WithinBits(d, 8);
    if Num(c, 40) == Num(d, 40) {
      NumInjective(c, d, 40);
    }
  }

  // ------------------------------------------------- eight symbols as a number

  function Bit(c: word): nat { if Odd(c) then 1 else 0 }

  lemma NumFive(c: word)
    ensures var c1 := Half(c); var c2 := Half(c1); var c3 := Half(c2); var c4 := Half(c3);
            Num(c, 5) == Bit(c) + 2 * Bit(c1) + 4 * Bit(c2) + 8 * Bit(c3) + 16 * Bit(c4)
  {
    hide Half, Odd;
    var c1 := Half(c);
    var c2 := Half(c1);
    var c3 := Half(c2);
    assert Num(c3, 2) == Bit(c3) + 2 * Bit(Half(c3));
    assert Num(c1, 4) == Bit(c1) + 2 * Bit(c2) + 4 * Num(c3, 2);
  }

  lemma AppendedBits(x: word, d: word)
    requires d < 32
    ensures var y := Append(x, d);
            var y1, d1 := Half(y), Half(d); var y2, d2 := Half(y1), Half(d1);
            var y3, d3 := Half(y2), Half(d2); var y4, d4 := Half(y3), Half(d3);
            Odd(y) == Odd(d) && Odd(y1) == Odd(d1) && Odd(y2) == Odd(d2) && Odd(y3) == Odd(d3) && Odd(y4) == Odd(d4)
  {
  }

  lemma AppendedHigh(x: word, d: word)
    requires x < 0x8_0000_0000 && d < 32
    ensures Append(x, d) >> 5 == x
  {
  }

  lemma LowOfAppend(x: word, d: word)
    requires d < 32
    ensures Num(Append(x, d), 5) == Num(d, 5)
  {
    hide Append, Num, Half, Odd;
    AppendedBits(x, d);
    NumFive(Append(x, d));
    NumFive(d);
  }

  lemma NumOfAppend(x: word, d: word, k: nat)
    requires x < 0x8_0000_0000 && d < 32
    ensures Num(Append(x, d), k + 5) == Num(x, k) * 32 + Num(d, 5)
  {
    hide Append, Num, Drop;
    var y := Append(x, d);
    AppendedHigh(x, d);
    LowOfAppend(x, d);
    DropFive(y);
    NumSplit(y, k, 5);
    TwoToTheEight();
  }

  /** Shifting a symbol in is multiplying by 32 and adding it. */
  lemma NumOfStep(x: word, d: byte, m: nat)
    requires m < 8 && Within(x, m) && d < 32
    ensures Num(Step(x, Bits(d)), 5 * (m + 1)) == Num(x, 5 * m) * 32 + d
  {
    hide Step, Append, Within, Bits, Num, Room, Pow;
    ByteBits(d);
    WithinRoom(x, m);
    Appends(x, Bits(d));
    NumOfAppend(x, Bits(d), 5 * m);
    TwoToTheEight();
    NumOfBits(d, 5);
  }

  lemma WithinRoom(x: word, m: nat)
    requires m < 8 && Within(x, m)
    ensures x < 0x8_0000_0000
  {
  }

  predicate AllZero(z: seq<byte>) {
    forall i :: 0 <= i < |z| ==> z[i] == 0
  }

  /** Over at most eight symbols the register only packs them. */
  lemma {:induction false} Packs(x: word, e: seq<byte>, z: seq<byte>, m: nat)
    requires |e| == |z| && AllZero(z) && AllBelow(e, 32) && m + |e| <= 8 && Within(x, m)
    ensures Num(Spread(x, e, z), 5 * (m + |e|)) == Num(x, 5 * m) * Pow(32, |e|) + Value(e, 32)
    decreases |e|
  {
    hide Step, Within, Bits, Num, Xor, Value;
    if e == [] {
      NoDigits();
    } else {
      NoBits();
      var d := Bits(e[0]);
      XorZero(d);
      ByteBits(e[0]);
      OneMoreWithin(x, d, m);
      NumOfStep(x, e[0], m);
      Packs(Step(x, d), e[1..], z[1..], m + 1);
      FirstDigit(e);
      Cip37Convert.Nest(1, Num(x, 5 * m) * 32, e[0], Pow(32, |e| - 1));
      MulAssoc(Num(x, 5 * m), 32, Pow(32, |e| - 1));
    }
  }

  lemma NoDigits()
    ensures Value([], 32) == 0
  {
  }

  lemma FirstDigit(e: seq<nat>)
    requires e != []
    ensures Value(e, 32) == e[0] * Pow(32, |e| - 1) + Value(e[1..], 32)
  {
    assert e == [e[0]] + e[1..];
    ValueConcat([e[0]], e[1..], 32);
    assert [e[0]][..0] == [];
    assert Value([e[0]], 32) == e[0];
  }

  // ------------------------------------------------------------------ residue

  lemma {:induction false} RegisterStays(c: word, v: seq<byte>)
    requires c < REGISTER_LIMIT
    ensures Register(c, v) < REGISTER_LIMIT
    decreases |v|
  {
    hide Step, Bits;
    if v != [] {
      ByteBits(v[0]);
      StepStays(c, Bits(v[0]));
      RegisterStays(Step(c, Bits(v[0])), v[1..]);
    }
  }

  lemma OneBelow()
    ensures 1 as word < REGISTER_LIMIT
  {
  }

  lemma ChecksumWithin(v: seq<byte>)
    ensures Within(Checksum(v), 8)
  {
    hide Register, Within;
    OneBelow();
    RegisterStays(1, v);
    FlipLast(Register(1, v));
    RegisterWithin(Checksum(v));
  }

  /** Eight symbols in the place of the eight zeros change the checksum by the number they pack to. */
  lemma EndsWith(v: seq<byte>, e: seq<byte>)
    requires |e| == 8 && AllBelow(e, 32)
    ensures var p := Spread(0, e, ZEROS);
            && Xor(Checksum(v + e), Checksum(v + ZEROS)) == p
            && Within(p, 8) && Num(p, 40) == Value(e, 32)
  {
    hide Checksum, Xor, Spread, Within, Num, Value;
    ZeroBelow();
    ChecksumsDiffer(v + e, v + ZEROS);
    SpreadConcat(0, v, v, e, ZEROS);
    SameInput(0, v);
    BurstSpreads(0, e, ZEROS, 0);
    Packs(0, e, ZEROS, 0);
    ZeroNum(0);
  }

  /** The checksum of a text is the one sequence of eight symbols with which the register ends at zero: computing it afresh and
      comparing, as the library does, is the residue test of the CashAddr specification. */
  lemma ResidueIsZero(prefix: string, body: seq<byte>, e: seq<byte>)
    requires |e| == 8 && AllBelow(e, 32)
    ensures Checksum(Covered(prefix, body) + e) == 0 <==> e == ChecksumSymbols(prefix, body)
  {
    hide Checksum, Xor, Spread, Within, Num, Value, Digits, Covered, Pow;
    var v := Covered(prefix, body);
    var c, p := Checksum(v + ZEROS), Spread(0, e, ZEROS);
    EndsWith(v, e);
    ZeroOrEqual(Checksum(v + e), c, p);
    ChecksumWithin(v + ZEROS);
    RegistersEqual(p, c);
    NumBound(c, 40);
    FortyBits();
    SymbolsOf(e, Num(c, 40));
  }

  lemma ZeroOrEqual(x: word, c: word, p: word)
    requires Xor(x, c) == p
    ensures x == 0 <==> p == c
  {
    hide Xor;
    XorZero(c);
    XorZero(x);
    XorSelf(c);
    XorAssoc(x, c, c);
  }

  lemma FortyBits()
    ensures Pow(32, 8) == Pow(2, 40)
  {
    TwoToTheEight();
    Cip37Convert.PowPow(5, 8);
  }

  lemma SymbolsOf(e: seq<byte>, n: nat)
    requires |e| == 8 && AllBelow(e, 32) && n < Pow(32, 8)
    ensures Value(e, 32) == n <==> e == Digits(n, 8, 32)
  {
    hide Value, Digits, Pow;
    ValueOfDigits(n, 8, 32);
    DigitsOfValue(e, 32);
  }

  // --------------------------------------------------------------- the method

  /** uint64ToBytes: big-endian, least significant byte first written. */
  method Uint64ToBytes(num: word) returns (r: array<byte>)
    ensures fresh(r) && r.Length == 8
    ensures forall i :: 0 <= i < 8 ==> r[7 - i] == Num(Drop(num, 8 * i), 8)
  {
    hide Num, Drop, Pow;
    r := new byte[8](_ => 0);
    for i := 0 to 8
      invariant forall j :: 0 <= j < i ==> r[7 - j] == Num(Drop(num, 8 * j), 8)
    {
      NumBound(Drop(num, 8 * i), 8);
      TwoToTheEight();
      r[7 - i] := Num(Drop(num, 8 * i), 8);
    }
  }

  /** The last `k` of those bytes are the low 8k bits. */
  lemma {:induction false} NumBytes(c: word, s: seq<byte>)
    requires forall i :: 0 <= i < |s| ==> s[|s| - 1 - i] == Num(Drop(c, 8 * i), 8)
    ensures Value(s, 256) == Num(c, 8 * |s|)
    decreases |s|
  {
    hide Num, Drop, Pow;
    if s == [] {
      ZeroBits(c);
    } else {
      var init := s[..|s| - 1];
      DropNothing(c);
      assert s[|s| - 1 - 0] == Num(Drop(c, 8 * 0), 8);
      forall i | 0 <= i < |init| ensures init[|init| - 1 - i] == Num(Drop(Drop(c, 8), 8 * i), 8) {
        DropDrop(c, 8, 8 * i);
        assert s[|s| - 1 - (i + 1)] == Num(Drop(c, 8 * (i + 1)), 8);
      }
      NumBytes(Drop(c, 8), init);
      NumSplit(c, 8 * |init|, 8);
      TwoToTheEight();
    }
  }

  lemma ZeroBits(c: word)
    ensures Num(c, 0) == 0
  {
  }

  lemma DropNothing(c: word)
    ensures Drop(c, 0) == c
  {
  }

  /** Regrouping five bytes into eight symbols. */
  lemma FiveBytes(s: seq<byte>)
    requires |s| == 5
    ensures Cip37Convert.Symbols(s, 8) && Cip37Convert.Regroup(s, 8, 5) == Digits(Value(s, 256), 8, 32)
  {
    hide Value, Digits, Pow, Quot, Rem, Cip37Convert.Fitted;
    TwoToTheEight();
    QuotUnique(8, 4, 5);
    FittedWhole(Value(s, 256), 40);
  }

  lemma FittedWhole(v: nat, bits: nat)
    ensures Cip37Convert.Fitted(v, bits, bits) == v
  {
    NoPower();
  }

  /** CalcChecksum. */
  method CalcChecksum(prefix: string, body: seq<byte>) returns (r: seq<byte>)
    ensures r == ChecksumSymbols(prefix, body)
    ensures |r| == 8 && AllBelow(r, 32) && Checksum(Covered(prefix, body) + r) == 0
  {
    hide Checksum, Num, Digits, Value, Cip37Convert.Regroup, Drop, Cip37Convert.Symbols;
    var input: seq<byte> := [];
    for i := 0 to |prefix|
      invariant |input| == i && forall j :: 0 <= j < i ==> input[j] == prefix[j] as int % 32
    {
      input := input + [prefix[i] as int % 32];
    }
    assert input == PrefixSymbols(prefix);
    input := input + [0];
    input := input + body;
    input := input + ZEROS;
    var c := Polymod(input);
    var bytes := Uint64ToBytes(c);
    var low := bytes[3..];
    forall i | 0 <= i < 5 ensures low[|low| - 1 - i] == Num(Drop(c, 8 * i), 8) {
      assert low[4 - i] == bytes[7 - i];
    }
    NumBytes(c, low);
    FiveBytes(low);
    r := Cip37Convert.Convert(low, 8, 5);
    SymbolsBelow(Num(c, 40));
    assert input == Covered(prefix, body) + ZEROS;
    ResidueIsZero(prefix, body, r);
  }
}
