/** A text that is accepted although it is not what the library prints: an 'i' in the body, and a version byte that says 192 bits
    (libcfxcore/types/cfxaddress/body.cpp, address.cpp). */
module Cip37Examples {
  import opened Numbers
  import Cip37Convert
  import opened Cip37Polymod
  import Cip37Checksum
  import opened Cip37Text
  import Cip37Network
  import opened Cip37Address
  import Cip37Reading
  import opened Cip37Equality

  /** The version byte 1 and twenty zero bytes, as symbols, and the checksum. */
  const FIRST: seq<byte> := [0, 4, 0, 0, 0, 0, 0, 0]
  const BODY: seq<byte> := FIRST + (NO_SYMBOLS + (NO_SYMBOLS + (NO_SYMBOLS + [0, 0])))
  const CHECKSUM: seq<byte> := [25, 23, 0, 4, 12, 30, 23, 24]

  /** The same in letters. */
  const EIGHT_A: string := "aaaaaaaa"
  const LAST: string := "aeaaaaaa" + (EIGHT_A + (EIGHT_A + (EIGHT_A + ("aa" + "31aep812"))))

  /** What the register takes: the symbols of "cfx", the separator, the body and the checksum. */
  const PREFIX: seq<byte> := [3, 6, 24, 0]

  lemma OneTurn(c: word, d: byte, s: seq<byte>)
    ensures Register(c, [d] + s) == Register(Step(c, Bits(d)), s)
  {
    hide Step, Bits;
    assert ([d] + s)[1..] == s;
  }

  lemma FourTurns(d: seq<byte>, a: word, b: word, c: word, e: word, f: word, s: seq<byte>)
    requires |d| == 4 && Step(a, Bits(d[0])) == b && Step(b, Bits(d[1])) == c
    requires Step(c, Bits(d[2])) == e && Step(e, Bits(d[3])) == f
    ensures Register(a, d + s) == Register(f, s)
  {
    hide Step, Bits, Register;
    var s1 := [d[3]] + s;
    var s2 := [d[2]] + s1;
    var s3 := [d[1]] + s2;
    assert d + s == [d[0]] + s3;
    OneTurn(a, d[0], s3);
    OneTurn(b, d[1], s2);
    OneTurn(c, d[2], s1);
    OneTurn(e, d[3], s);
  }

  lemma EightTurns(d: seq<byte>, a: word, m: word, z: word, s: seq<byte>)
    requires |d| == 8 && Register(a, d[..4] + (d[4..] + s)) == Register(m, d[4..] + s)
    requires Register(m, d[4..] + s) == Register(z, s)
    ensures Register(a, d + s) == Register(z, s)
  {
    hide Register;
    assert d + s == d[..4] + (d[4..] + s);
  }

  lemma SymbolBits()
    ensures Bits(0) == 0
    ensures Bits(3) == 3
    ensures Bits(4) == 4
    ensures Bits(6) == 6
    ensures Bits(12) == 12
    ensures Bits(23) == 23
    ensures Bits(24) == 24
    ensures Bits(25) == 25
    ensures Bits(30) == 30
  {
    CodewordBits();
    assert Bits(7) == 7 && Bits(2) == 2;
    assert Bits(15) == 15 && Bits(5) == 5;
  }

  lemma Turns0()
    ensures Step(0x1, 3) == 0x23
    ensures Step(0x23, 6) == 0x466
    ensures Step(0x466, 24) == 0x8cd8
    ensures Step(0x8cd8, 0) == 0x119b00
  {
  }

  lemma Stage0(s: seq<byte>)
    ensures Register(0x1, PREFIX + s) == Register(0x119b00, s)
  {
    hide Step, Bits, Register;
    SymbolBits();
    Turns0();
    FourTurns(PREFIX, 0x1, 0x23, 0x466, 0x8cd8, 0x119b00, s);
  }

  lemma Turns1()
    ensures Step(0x119b00, 0) == 0x2336000
    ensures Step(0x2336000, 4) == 0x466c0004
    ensures Step(0x466c0004, 0) == 0x8cd800080
    ensures Step(0x8cd800080, 0) == 0x8142bc9e61
  {
  }

  lemma Turns2()
    ensures Step(0x8142bc9e61, 0) == 0x3618d02850
    ensures Step(0x3618d02850, 0) == 0x4993372026
    ensures Step(0x4993372026, 0) == 0x4baf36809
    ensures Step(0x4baf36809, 0) == 0x975e6d0120
  {
  }

  lemma Stage1(s: seq<byte>)
    ensures Register(0x119b00, FIRST + s) == Register(0x975e6d0120, s)
  {
    hide Step, Bits, Register;
    SymbolBits();
    Turns1();
    Turns2();
    var d := FIRST;
    FourTurns(d[..4], 0x119b00, 0x2336000, 0x466c0004, 0x8cd800080, 0x8142bc9e61, d[4..] + s);
    FourTurns(d[4..], 0x8142bc9e61, 0x3618d02850, 0x4993372026, 0x4baf36809, 0x975e6d0120, s);
    EightTurns(d, 0x119b00, 0x8142bc9e61, 0x975e6d0120, s);
  }

  lemma Turns3()
    ensures Step(0x975e6d0120, 0) == 0x8c358e5992
    ensures Step(0x8c358e5992, 0) == 0xc345851
    ensures Step(0xc345851, 0) == 0x1868b0a20
    ensures Step(0x1868b0a20, 0) == 0x30d1614400
  {
  }

  lemma Turns4()
    ensures Step(0x30d1614400, 0) == 0x90a51aaa26
    ensures Step(0x90a51aaa26, 0) == 0x735b7b3952
    ensures Step(0x735b7b3952, 0) == 0x4fc8fee2ce
    ensures Step(0x4fc8fee2ce, 0) == 0xcfc3cb3509
  {
  }

  lemma Stage2(s: seq<byte>)
    ensures Register(0x975e6d0120, NO_SYMBOLS + s) == Register(0xcfc3cb3509, s)
  {
    hide Step, Bits, Register;
    SymbolBits();
    Turns3();
    Turns4();
    var d := NO_SYMBOLS;
    FourTurns(d[..4], 0x975e6d0120, 0x8c358e5992, 0xc345851, 0x1868b0a20, 0x30d1614400, d[4..] + s);
    FourTurns(d[4..], 0x30d1614400, 0x90a51aaa26, 0x735b7b3952, 0x4fc8fee2ce, 0xcfc3cb3509, s);
    EightTurns(d, 0x975e6d0120, 0x30d1614400, 0xcfc3cb3509, s);
  }

  lemma Turns5()
    ensures Step(0xcfc3cb3509, 0) == 0xd0ea322999
    ensures Step(0xd0ea322999, 0) == 0xd490c0ac1a
    ensures Step(0xd490c0ac1a, 0) == 0x5bce901c7a
    ensures Step(0x5bce901c7a, 0) == 0x36b9797a6b
  {
  }

  lemma Turns6()
    ensures Step(0x36b9797a6b, 0) == 0x5da61d6746
    ensures Step(0x5da61d6746, 0) == 0xfba8d61deb
    ensures Step(0xfba8d61deb, 0) == 0xd700a51fff
    ensures Step(0xd700a51fff, 0) == 0x29c22660da
  {
  }

  lemma Stage3(s: seq<byte>)
    ensures Register(0xcfc3cb3509, NO_SYMBOLS + s) == Register(0x29c22660da, s)
  {
    hide Step, Bits, Register;
    SymbolBits();
    Turns5();
    Turns6();
    var d := NO_SYMBOLS;
    FourTurns(d[..4], 0xcfc3cb3509, 0xd0ea322999, 0xd490c0ac1a, 0x5bce901c7a, 0x36b9797a6b, d[4..] + s);
    FourTurns(d[4..], 0x36b9797a6b, 0x5da61d6746, 0xfba8d61deb, 0xd700a51fff, 0x29c22660da, s);
    EightTurns(d, 0xcfc3cb3509, 0x36b9797a6b, 0x29c22660da, s);
  }

  lemma Turns7()
    ensures Step(0x29c22660da, 0) == 0x53882f26e5
    ensures Step(0x53882f26e5, 0) == 0xa69c22a7ea
    ensures Step(0xa69c22a7ea, 0) == 0x3ef548aaf4
    ensures Step(0x3ef548aaf4, 0) == 0xccd29bfac7
  {
  }

  lemma Turns8()
    ensures Step(0xccd29bfac7, 0) == 0xb2c02bd059
    ensures Step(0xb2c02bd059, 0) == 0xccc30bc576
    ensures Step(0xccc30bc576, 0) == 0xb0f22c2679
    ensures Step(0xb0f22c2679, 0) == 0x8a83f50176
  {
  }

  lemma Stage4(s: seq<byte>)
    ensures Register(0x29c22660da, NO_SYMBOLS + s) == Register(0x8a83f50176, s)
  {
    hide Step, Bits, Register;
    SymbolBits();
    Turns7();
    Turns8();
    var d := NO_SYMBOLS;
    FourTurns(d[..4], 0x29c22660da, 0x53882f26e5, 0xa69c22a7ea, 0x3ef548aaf4, 0xccd29bfac7, d[4..] + s);
    FourTurns(d[4..], 0xccd29bfac7, 0xb2c02bd059, 0xccc30bc576, 0xb0f22c2679, 0x8a83f50176, s);
    EightTurns(d, 0x29c22660da, 0xccd29bfac7, 0x8a83f50176, s);
  }

  lemma Turns9()
    ensures Step(0x8a83f50176, 0) == 0xd6c35f44d1
    ensures Step(0xd6c35f44d1, 0) == 0x11bd6d051a
  {
  }

  lemma Stage5(s: seq<byte>)
    ensures Register(0x8a83f50176, [0, 0] + s) == Register(0x11bd6d051a, s)
  {
    hide Step, Bits, Register;
    SymbolBits();
    Turns9();
    OneTurn(0x8a83f50176, 0, [0] + s);
    OneTurn(0xd6c35f44d1, 0, s);
    assert [0, 0] + s == [0] + ([0] + s);
  }

  lemma Turns10()
    ensures Step(0x11bd6d051a, 25) == 0x4e1acd3abb
    ensures Step(0x4e1acd3abb, 23) == 0xf585b03bbe
    ensures Step(0xf585b03bbe, 0) == 0x8a5edd5b3e
    ensures Step(0x8a5edd5b3e, 4) == 0xcd66540dd5
  {
  }

  lemma Turns11()
    ensures Step(0xcd66540dd5, 12) == 0x8459d53215
    ensures Step(0x8459d53215, 30) == 0x9575e5a6ce
    ensures Step(0x9575e5a6ce, 23) == 0xc9449aa445
    ensures Step(0xc9449aa445, 24) == 0x1
  {
  }

  lemma Stage6(s: seq<byte>)
    ensures Register(0x11bd6d051a, CHECKSUM + s) == Register(0x1, s)
  {
    hide Step, Bits, Register;
    SymbolBits();
    Turns10();
    Turns11();
    var d := CHECKSUM;
    FourTurns(d[..4], 0x11bd6d051a, 0x4e1acd3abb, 0xf585b03bbe, 0x8a5edd5b3e, 0xcd66540dd5, d[4..] + s);
    FourTurns(d[4..], 0xcd66540dd5, 0x8459d53215, 0x9575e5a6ce, 0xc9449aa445, 0x1, s);
    EightTurns(d, 0x11bd6d051a, 0xcd66540dd5, 0x1, s);
  }

  /** The register ends where it began, so the residue is zero. */
  lemma InputEndsAtZero()
    ensures Checksum(PREFIX + (BODY + CHECKSUM)) == 0
  {
    hide Register, FIRST, NO_SYMBOLS, CHECKSUM, PREFIX;
    var s6 := CHECKSUM + [];
    var s5 := [0, 0] + s6;
    var s4 := NO_SYMBOLS + s5;
    var s3 := NO_SYMBOLS + s4;
    var s2 := NO_SYMBOLS + s3;
    var s1 := FIRST + s2;
    Stage0(s1);
    Stage1(s2);
    Stage2(s3);
    Stage3(s4);
    Stage4(s5);
    Stage5(s6);
    Stage6([]);
    assert PREFIX + (BODY + CHECKSUM) == PREFIX + s1;
    NothingToTake();
    XorSelf(1);
  }

  lemma NothingToTake()
    ensures Register(1, []) == 1
  {
  }

  // --------------------------------------------------------------------- the text

  lemma LettersOf(x: seq<byte>, y: seq<byte>)
    requires AllBelow(x, 32) && AllBelow(y, 32)
    ensures AllBelow(x + y, 32) && Letters(x + y) == Letters(x) + Letters(y)
  {
    ThirtyTwo();
  }

  lemma FirstLetters()
    ensures AllBelow(FIRST, 32) && Letters(FIRST) == "aeaaaaaa"
  {
  }

  lemma ZeroLetters()
    ensures AllBelow(NO_SYMBOLS, 32) && Letters(NO_SYMBOLS) == EIGHT_A
    ensures AllBelow([0, 0], 32) && Letters([0, 0]) == "aa"
  {
  }

  lemma ChecksumLetters()
    ensures AllBelow(CHECKSUM, 32) && Letters(CHECKSUM) == "31aep812"
  {
  }

  lemma LettersOfExample()
    ensures AllBelow(BODY + CHECKSUM, 32) && Letters(BODY + CHECKSUM) == LAST
  {
    hide Letters, FIRST, NO_SYMBOLS, CHECKSUM, EIGHT_A;
    FirstLetters();
    ZeroLetters();
    ChecksumLetters();
    var s5 := [0, 0] + CHECKSUM;
    var s4 := NO_SYMBOLS + s5;
    var s3 := NO_SYMBOLS + s4;
    var s2 := NO_SYMBOLS + s3;
    LettersOf([0, 0], CHECKSUM);
    LettersOf(NO_SYMBOLS, s5);
    LettersOf(NO_SYMBOLS, s4);
    LettersOf(NO_SYMBOLS, s3);
    LettersOf(FIRST, s2);
    assert BODY + CHECKSUM == FIRST + s2;
  }

  lemma Lengths()
    ensures |BODY| == 34 && |CHECKSUM| == 8 && |LAST| == 42 && LAST[2] == 'a'
  {
  }

  lemma PrefixIs()
    ensures Cip37Checksum.PrefixSymbols("cfx") + [0] == PREFIX
  {
  }

  lemma LastIs()
    ensures |LAST| == 42 && Indices(LAST) == BODY + CHECKSUM && InAlphabet(LAST) && IsLower(LAST) && ':' !in LAST
  {
    hide Letters, Indices, BODY, CHECKSUM, LAST;
    Lengths();
    LettersOfExample();
    IndicesOfLetters(BODY + CHECKSUM);
    LettersAreLower(BODY + CHECKSUM);
  }

  /** The text splits as it should. */
  lemma ExampleParts()
    ensures var text := "cfx:" + LAST;
            && Lower(text) == text && SingleCase(text) && PartsOf(text) == ["cfx", LAST] && Defined(text)
  {
    hide LAST, Parts, Lower;
    LastIs();
    var text := "cfx" + ":" + LAST;
    assert text == "cfx:" + LAST;
    assert IsLower(text);
    LowerFixes(text);
    TwoParts("cfx", LAST);
  }

  /** "cfx:ae…" is accepted, for an address of twenty zero bytes, which the library itself prints otherwise. */
  lemma WrongVersionIsAccepted()
    ensures var text := "cfx:" + LAST;
            && Defined(text) && Read(text).Accepted?
            && var f := Read(text).fields;
               && f.hex == seq(20, _ => 0) && BytesOf(f.body)[..1] == [1] && VersionByte(20) == 0
               && FromHex(f.network, f.hex) != f
  {
    hide LAST, BODY, CHECKSUM, PREFIX, Read, Judge, Checksum, Cip37Checksum.PrefixSymbols, Indices, BytesOf;
    hide PartsOf, TypeOf, Cip37Checksum.ChecksumSymbols;
    var text := "cfx:" + LAST;
    LastIs();
    ExampleParts();
    PrefixIs();
    InputEndsAtZero();
    TailInAlphabet(LAST);
    Cip37Reading.AcceptedIsResidue(text);
    Cip37Network.KnownNetworks();
    ExampleFields();
    ExampleBytes();
    Cip37Reading.OrdinaryIsFromHex(text);
  }

  lemma TailInAlphabet(s: string)
    requires InAlphabet(s) && |s| >= 8
    ensures InAlphabet(s[|s| - 8..])
  {
  }

  lemma ExampleFields()
    requires var text := "cfx:" + LAST; Defined(text) && Read(text).Accepted?
    ensures var f := Read("cfx:" + LAST).fields;
            f.body == BODY && |BytesOf(BODY)| >= 2 && f.hex == BytesOf(BODY)[1..]
  {
    hide LAST, BODY, CHECKSUM, Judge, Indices, BytesOf, PartsOf, TypeOf, Cip37Checksum.ChecksumSymbols, Letters;
    ExampleParts();
    Cip37Reading.JudgedFields(["cfx", LAST]);
    LastIs();
    BodyPart();
  }

  lemma BodyPart()
    requires Indices(LAST) == BODY + CHECKSUM && |LAST| == 42
    ensures Indices(LAST[..34]) == BODY
  {
    hide LAST, BODY, CHECKSUM, Index;
    Lengths();
    assert Indices(LAST[..34]) == Indices(LAST)[..34];
  }

  lemma ExampleBytes()
    ensures BytesOf(BODY) == [1] + seq(20, _ => 0)
  {
    hide Cip37Convert.Regroup, FIRST, NO_SYMBOLS;
    var a: seq<byte> := [1, 0, 0, 0, 0];
    FirstBytes();
    NoBytesAre();
    FourBlocks(a, NO_BYTES, NO_BYTES, NO_BYTES, 0, 0, 0);
    TwentyOne();
    var bytes: seq<byte> := [1] + seq(20, _ => 0);
    ByteSymbols(bytes);
    Cip37Convert.NarrowAndBack(bytes, 8, 5);
  }

  lemma FirstBytes()
    ensures Cip37Convert.Regroup([1, 0, 0, 0, 0], 8, 5) == FIRST
  {
    hide Cip37Convert.Regroup;
    FiveAre([1, 0, 0, 0, 0], FIRST);
  }

  lemma TwentyOne()
    ensures [1] + seq(20, _ => 0) == [1, 0, 0, 0, 0] + (NO_BYTES + (NO_BYTES + (NO_BYTES + [0])))
  {
  }

  /** The same text with an 'i' for the third letter is accepted as well, as the same address. */
  lemma StrangerIsAccepted()
    ensures var text := "cfx:" + LAST;
            && 'i' !in ALPHABET
            && Defined(text) && Defined(text[6 := 'i']) && Read(text).Accepted?
            && Read(text[6 := 'i']) == Read(text)
  {
    hide Read, Parts, ALPHABET, LAST;
    var text := "cfx:" + LAST;
    WrongVersionIsAccepted();
    ExampleParts();
    NoI();
    Lengths();
    assert text[6] == 'a' && |LAST| == 42;
    StillLower(text, 6, 'i');
    Cip37Reading.StrangersReadAsA(text, 6, 'i');
  }

  lemma StillLower(text: string, k: nat, c: char)
    requires Lower(text) == text && k < |text| && LowerChar(c) == c
    ensures SingleCase(text[k := c]) && Lower(text)[k] == text[k]
  {
    var t := text[k := c];
    forall i | 0 <= i < |t| ensures LowerChar(t[i]) == t[i] {
      assert Lower(text)[i] == LowerChar(text[i]);
    }
    assert Lower(t) == t;
  }

  lemma NoI()
    ensures 'i' !in ALPHABET
  {
    hide ALPHABET;
    ThirtyTwo();
    forall i | 0 <= i < 32 ensures ALPHABET[i] != 'i' {
      LetterIsNotI(i);
    }
  }

  lemma LetterIsNotI(i: nat)
    requires i < 32
    ensures |ALPHABET| == 32 && ALPHABET[i] != 'i'
  {
  }
}
