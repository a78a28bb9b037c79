/** The address that tests/test_main.cpp expects, from its bytes to its text and back. */
module Cip37Vector {
  import opened Numbers
  import opened Cip37Convert
  import opened Cip37Polymod
  import opened Cip37Checksum
  import opened Cip37Text
  import opened Cip37Address
  import Cip37Network
  import Cip37Equality
  import opened Cip37Examples

  /** The twenty bytes. */
  const HEX: seq<byte> := [0x1a, 0x3d, 0x17, 0xaa, 0xb6, 0x7a, 0x48, 0xab, 0xb1, 0xd3,
                           0x9e, 0x05, 0x9b, 0x53, 0x91, 0xb6, 0x4a, 0x91, 0xd5, 0x30]

  /** Version byte and bytes in blocks of five, and the same in symbols. */
  const BYTES_A: seq<byte> := [0x00, 0x1a, 0x3d, 0x17, 0xaa]
  const BYTES_B: seq<byte> := [0xb6, 0x7a, 0x48, 0xab, 0xb1]
  const BYTES_C: seq<byte> := [0xd3, 0x9e, 0x05, 0x9b, 0x53]
  const BYTES_D: seq<byte> := [0x91, 0xb6, 0x4a, 0x91, 0xd5]
  const SYMBOLS_A: seq<byte> := [0, 0, 13, 3, 26, 5, 29, 10]
  const SYMBOLS_B: seq<byte> := [22, 25, 29, 4, 17, 10, 29, 17]
  const SYMBOLS_C: seq<byte> := [26, 14, 15, 0, 11, 6, 26, 19]
  const SYMBOLS_D: seq<byte> := [18, 6, 27, 4, 21, 4, 14, 21]
  const VECTOR_BODY: seq<byte> := SYMBOLS_A + (SYMBOLS_B + (SYMBOLS_C + (SYMBOLS_D + [6, 0])))
  const VECTOR_CHECKSUM: seq<byte> := [25, 13, 3, 26, 22, 11, 30, 18]

  /** Body and checksum as text. */
  const VECTOR_LAST: string := "aard4f7m037evm7v4stang4xwg5ezeszga3rd40n8w"

  lemma VectorBody()
    ensures BodyOf(HEX) == VECTOR_BODY
  {
    hide Regroup, SYMBOLS_A, SYMBOLS_B, SYMBOLS_C, SYMBOLS_D, BYTES_A, BYTES_B, BYTES_C, BYTES_D, HEX;
    BlocksAre();
    Cip37Equality.FourBlocks(BYTES_A, BYTES_B, BYTES_C, BYTES_D, 0x30, 6, 0);
    BytesInBlocks();
  }

  lemma BytesInBlocks()
    ensures |HEX| == 20 && |BYTES_A| == |BYTES_B| == |BYTES_C| == |BYTES_D| == 5
    ensures [VersionByte(20)] + HEX == BYTES_A + (BYTES_B + (BYTES_C + (BYTES_D + [0x30])))
  {
  }

  lemma BlocksAre()
    ensures |BYTES_A| == |BYTES_B| == |BYTES_C| == |BYTES_D| == 5
    ensures Regroup(BYTES_A, 8, 5) == SYMBOLS_A && Regroup(BYTES_B, 8, 5) == SYMBOLS_B
    ensures Regroup(BYTES_C, 8, 5) == SYMBOLS_C && Regroup(BYTES_D, 8, 5) == SYMBOLS_D
  {
    hide Regroup;
    Cip37Equality.FiveAre(BYTES_A, SYMBOLS_A);
    Cip37Equality.FiveAre(BYTES_B, SYMBOLS_B);
    Cip37Equality.FiveAre(BYTES_C, SYMBOLS_C);
    Cip37Equality.FiveAre(BYTES_D, SYMBOLS_D);
  }

  // ------------------------------------------------------------------ the register

  lemma BitsTo7()
    ensures Bits(0) == 0 && Bits(1) == 1 && Bits(2) == 2 && Bits(3) == 3
    ensures Bits(4) == 4 && Bits(5) == 5 && Bits(6) == 6 && Bits(7) == 7
  {
    hide Bits;
    NoBits();
    BitsStep(1);
    BitsStep(2);
    BitsStep(3);
    BitsStep(4);
    BitsStep(5);
    BitsStep(6);
    BitsStep(7);
  }

  lemma BitsTo15()
    ensures Bits(8) == 8 && Bits(9) == 9 && Bits(10) == 10 && Bits(11) == 11
    ensures Bits(12) == 12 && Bits(13) == 13 && Bits(14) == 14 && Bits(15) == 15
  {
    hide Bits;
    BitsTo7();
    BitsStep(8);
    BitsStep(9);
    BitsStep(10);
    BitsStep(11);
    BitsStep(12);
    BitsStep(13);
    BitsStep(14);
    BitsStep(15);
  }

  lemma BitsTo23()
    ensures Bits(16) == 16 && Bits(17) == 17 && Bits(18) == 18 && Bits(19) == 19
    ensures Bits(20) == 20 && Bits(21) == 21 && Bits(22) == 22 && Bits(23) == 23
  {
    hide Bits;
    BitsTo15();
    BitsStep(16);
    BitsStep(17);
    BitsStep(18);
    BitsStep(19);
    BitsStep(20);
    BitsStep(21);
    BitsStep(22);
    BitsStep(23);
  }

  lemma BitsTo31()
    ensures Bits(24) == 24 && Bits(25) == 25 && Bits(26) == 26 && Bits(27) == 27
    ensures Bits(28) == 28 && Bits(29) == 29 && Bits(30) == 30 && Bits(31) == 31
  {
    hide Bits;
    BitsTo15();
    BitsStep(24);
    BitsStep(25);
    BitsStep(26);
    BitsStep(27);
    BitsStep(28);
    BitsStep(29);
    BitsStep(30);
    BitsStep(31);
  }

  lemma AllBits()
    ensures Bits(0) == 0 && Bits(1) == 1 && Bits(2) == 2 && Bits(3) == 3
    ensures Bits(4) == 4 && Bits(5) == 5 && Bits(6) == 6 && Bits(7) == 7
    ensures Bits(8) == 8 && Bits(9) == 9 && Bits(10) == 10 && Bits(11) == 11
    ensures Bits(12) == 12 && Bits(13) == 13 && Bits(14) == 14 && Bits(15) == 15
    ensures Bits(16) == 16 && Bits(17) == 17 && Bits(18) == 18 && Bits(19) == 19
    ensures Bits(20) == 20 && Bits(21) == 21 && Bits(22) == 22 && Bits(23) == 23
    ensures Bits(24) == 24 && Bits(25) == 25 && Bits(26) == 26 && Bits(27) == 27
    ensures Bits(28) == 28 && Bits(29) == 29 && Bits(30) == 30 && Bits(31) == 31
  {
    hide Bits;
    BitsTo7();
    BitsTo15();
    BitsTo23();
    BitsTo31();
  }

  lemma VectorTurns0()
    ensures Step(0x1, 3) == 0x23
    ensures Step(0x23, 6) == 0x466
    ensures Step(0x466, 24) == 0x8cd8
    ensures Step(0x8cd8, 0) == 0x119b00
  {
  }

  lemma VectorStage0(s: seq<byte>)
    ensures Register(0x1, PREFIX + s) == Register(0x119b00, s)
  {
    hide Step, Bits, Register;
    AllBits();
    VectorTurns0();
    FourTurns(PREFIX, 0x1, 0x23, 0x466, 0x8cd8, 0x119b00, s);
  }

  lemma VectorTurns1()
    ensures Step(0x119b00, 0) == 0x2336000
    ensures Step(0x2336000, 0) == 0x466c0000
    ensures Step(0x466c0000, 13) == 0x8cd80000d
    ensures Step(0x8cd80000d, 3) == 0x8142bc8fc2
  {
  }

  lemma VectorTurns2()
    ensures Step(0x8142bc8fc2, 26) == 0x3618d21c2a
    ensures Step(0x3618d21c2a, 5) == 0x499371af63
    ensures Step(0x499371af63, 29) == 0x4b22280b4
    ensures Step(0x4b22280b4, 10) == 0x964450168a
  {
  }

  lemma VectorStage1(s: seq<byte>)
    ensures Register(0x119b00, SYMBOLS_A + s) == Register(0x964450168a, s)
  {
    hide Step, Bits, Register;
    AllBits();
    VectorTurns1();
    VectorTurns2();
    var d := SYMBOLS_A;
    FourTurns(d[..4], 0x119b00, 0x2336000, 0x466c0000, 0x8cd80000d, 0x8142bc8fc2, d[4..] + s);
    FourTurns(d[4..], 0x8142bc8fc2, 0x3618d21c2a, 0x499371af63, 0x4b22280b4, 0x964450168a, s);
    EightTurns(d, 0x119b00, 0x8142bc8fc2, 0x964450168a, s);
  }

  lemma VectorTurns3()
    ensures Step(0x964450168a, 22) == 0xaf722cacc4
    ensures Step(0xaf722cacc4, 25) == 0x9bc635414c
    ensures Step(0x9bc635414c, 29) == 0x87cc3ada6e
    ensures Step(0x87cc3ada6e, 4) == 0xe7c818a9b4
  {
  }

  lemma VectorTurns4()
    ensures Step(0xe7c818a9b4, 17) == 0xba5ca2838d
    ensures Step(0xba5ca2838d, 10) == 0x47a09d319d
    ensures Step(0x47a09d319d, 29) == 0x5a3d0dd115
    ensures Step(0x5a3d0dd115, 17) == 0x8cac0d79a
  {
  }

  lemma VectorStage2(s: seq<byte>)
    ensures Register(0x964450168a, SYMBOLS_B + s) == Register(0x8cac0d79a, s)
  {
    hide Step, Bits, Register;
    AllBits();
    VectorTurns3();
    VectorTurns4();
    var d := SYMBOLS_B;
    FourTurns(d[..4], 0x964450168a, 0xaf722cacc4, 0x9bc635414c, 0x87cc3ada6e, 0xe7c818a9b4, d[4..] + s);
    FourTurns(d[4..], 0xe7c818a9b4, 0xba5ca2838d, 0x47a09d319d, 0x5a3d0dd115, 0x8cac0d79a, s);
    EightTurns(d, 0x964450168a, 0xe7c818a9b4, 0x8cac0d79a, s);
  }

  lemma VectorTurns5()
    ensures Step(0x8cac0d79a, 26) == 0x81aaa67d3b
    ensures Step(0x81aaa67d3b, 14) == 0x2b1b8c431e
    ensures Step(0x2b1b8c431e, 15) == 0x8bd6b5e6a
    ensures Step(0x8bd6b5e6a, 0) == 0x8f5fd74321
  {
  }

  lemma VectorTurns6()
    ensures Step(0x8f5fd74321, 11) == 0x6d47170e3a
    ensures Step(0x6d47170e3a, 6) == 0x6d00a9184b
    ensures Step(0x6d00a9184b, 26) == 0x65f76bd677
    ensures Step(0x65f76bd677, 19) == 0xe3fd8e9f9f
  {
  }

  lemma VectorStage3(s: seq<byte>)
    ensures Register(0x8cac0d79a, SYMBOLS_C + s) == Register(0xe3fd8e9f9f, s)
  {
    hide Step, Bits, Register;
    AllBits();
    VectorTurns5();
    VectorTurns6();
    var d := SYMBOLS_C;
    FourTurns(d[..4], 0x8cac0d79a, 0x81aaa67d3b, 0x2b1b8c431e, 0x8bd6b5e6a, 0x8f5fd74321, d[4..] + s);
    FourTurns(d[4..], 0x8f5fd74321, 0x6d47170e3a, 0x6d00a9184b, 0x65f76bd677, 0xe3fd8e9f9f, s);
    EightTurns(d, 0x8cac0d79a, 0x8f5fd74321, 0xe3fd8e9f9f, s);
  }

  lemma VectorTurns7()
    ensures Step(0xe3fd8e9f9f, 18) == 0x3cee6446ee
    ensures Step(0x3cee6446ee, 6) == 0x8fb7067981
    ensures Step(0x8fb7067981, 27) == 0x705d305a2a
    ensures Step(0x705d305a2a, 4) == 0x2f01928dca
  {
  }

  lemma VectorTurns8()
    ensures Step(0x2f01928dca, 21) == 0x8bfeb284f0
    ensures Step(0x8bfeb284f0, 4) == 0xf96baff415
    ensures Step(0xf96baff415, 14) == 0x8f6f982031
    ensures Step(0x8f6f982031, 21) == 0x6b4efb6c24
  {
  }

  lemma VectorStage4(s: seq<byte>)
    ensures Register(0xe3fd8e9f9f, SYMBOLS_D + s) == Register(0x6b4efb6c24, s)
  {
    hide Step, Bits, Register;
    AllBits();
    VectorTurns7();
    VectorTurns8();
    var d := SYMBOLS_D;
    FourTurns(d[..4], 0xe3fd8e9f9f, 0x3cee6446ee, 0x8fb7067981, 0x705d305a2a, 0x2f01928dca, d[4..] + s);
    FourTurns(d[4..], 0x2f01928dca, 0x8bfeb284f0, 0xf96baff415, 0x8f6f982031, 0x6b4efb6c24, s);
    EightTurns(d, 0xe3fd8e9f9f, 0x2f01928dca, 0x6b4efb6c24, s);
  }

  lemma VectorTurns9()
    ensures Step(0x6b4efb6c24, 6) == 0xac3d255b8b
    ensures Step(0xac3d255b8b, 0) == 0xf2270ba8b5
  {
  }

  lemma VectorStage5(s: seq<byte>)
    ensures Register(0x6b4efb6c24, [6, 0] + s) == Register(0xf2270ba8b5, s)
  {
    hide Step, Bits, Register;
    AllBits();
    VectorTurns9();
    OneTurn(0x6b4efb6c24, 6, [0] + s);
    OneTurn(0xac3d255b8b, 0, s);
    assert [6, 0] + s == [6] + ([0] + s);
  }

  lemma VectorTurns10()
    ensures Step(0xf2270ba8b5, 25) == 0x7e09af3a47
    ensures Step(0x7e09af3a47, 13) == 0x7d60c20e02
    ensures Step(0x7d60c20e02, 3) == 0x104d6486ac
    ensures Step(0x104d6486ac, 26) == 0x701bfd4c78
  {
  }

  lemma VectorTurns11()
    ensures Step(0x701bfd4c78, 22) == 0x27d8304798
    ensures Step(0x27d8304798, 11) == 0x8385740cf
    ensures Step(0x8385740cf, 30) == 0x9ff854979f
    ensures Step(0x9ff854979f, 18) == 0x1
  {
  }

  lemma VectorStage6(s: seq<byte>)
    ensures Register(0xf2270ba8b5, VECTOR_CHECKSUM + s) == Register(0x1, s)
  {
    hide Step, Bits, Register;
    AllBits();
    VectorTurns10();
    VectorTurns11();
    var d := VECTOR_CHECKSUM;
    FourTurns(d[..4], 0xf2270ba8b5, 0x7e09af3a47, 0x7d60c20e02, 0x104d6486ac, 0x701bfd4c78, d[4..] + s);
    FourTurns(d[4..], 0x701bfd4c78, 0x27d8304798, 0x8385740cf, 0x9ff854979f, 0x1, s);
    EightTurns(d, 0xf2270ba8b5, 0x701bfd4c78, 0x1, s);
  }

  lemma VectorEndsAtZero()
    ensures Checksum(PREFIX + (VECTOR_BODY + VECTOR_CHECKSUM)) == 0
  {
    hide Register, SYMBOLS_A, SYMBOLS_B, SYMBOLS_C, SYMBOLS_D, VECTOR_CHECKSUM, PREFIX;
    var s6 := VECTOR_CHECKSUM + [];
    var s5 := [6, 0] + s6;
    var s4 := SYMBOLS_D + s5;
    var s3 := SYMBOLS_C + s4;
    var s2 := SYMBOLS_B + s3;
    var s1 := SYMBOLS_A + s2;
    VectorStage0(s1);
    VectorStage1(s2);
    VectorStage2(s3);
    VectorStage3(s4);
    VectorStage4(s5);
    VectorStage5(s6);
    VectorStage6([]);
    assert PREFIX + (VECTOR_BODY + VECTOR_CHECKSUM) == PREFIX + s1;
    NothingToTake();
    XorSelf(1);
  }

  lemma VectorChecksum()
    ensures ChecksumSymbols("cfx", BodyOf(HEX)) == VECTOR_CHECKSUM
  {
    hide Checksum, ChecksumSymbols, PrefixSymbols, VECTOR_BODY, PREFIX, HEX, Regroup;
    VectorBody();
    VectorEndsAtZero();
    PrefixIs();
    assert PrefixSymbols("cfx") + [0] + VECTOR_BODY + VECTOR_CHECKSUM == PREFIX + (VECTOR_BODY + VECTOR_CHECKSUM);
    ResidueIsZero("cfx", VECTOR_BODY, VECTOR_CHECKSUM);
  }

  // ---------------------------------------------------------------------- the text

  lemma LettersA()
    ensures AllBelow(SYMBOLS_A, 32) && Letters(SYMBOLS_A) == "aard4f7m"
  {
  }

  lemma LettersB()
    ensures AllBelow(SYMBOLS_B, 32) && Letters(SYMBOLS_B) == "037evm7v"
  {
  }

  lemma LettersC()
    ensures AllBelow(SYMBOLS_C, 32) && Letters(SYMBOLS_C) == "4stang4x"
  {
  }

  lemma LettersD()
    ensures AllBelow(SYMBOLS_D, 32) && Letters(SYMBOLS_D) == "wg5ezesz"
  {
  }

  lemma LastLetters()
    ensures AllBelow([6, 0], 32) && Letters([6, 0]) == "ga"
    ensures AllBelow(VECTOR_CHECKSUM, 32) && Letters(VECTOR_CHECKSUM) == "3rd40n8w"
  {
  }

  lemma TextInPieces()
    ensures "aard4f7m" + ("037evm7v" + ("4stang4x" + ("wg5ezesz" + "ga"))) + "3rd40n8w" == VECTOR_LAST
  {
    var pieces := "aard4f7m" + ("037evm7v" + ("4stang4x" + ("wg5ezesz" + "ga"))) + "3rd40n8w";
    assert |pieces| == |VECTOR_LAST|;
    forall i | 0 <= i < |pieces| ensures pieces[i] == VECTOR_LAST[i] {
    }
  }

  lemma VectorLetters()
    ensures AllBelow(VECTOR_BODY, 32) && AllBelow(VECTOR_CHECKSUM, 32)
    ensures Letters(VECTOR_BODY) + Letters(VECTOR_CHECKSUM) == VECTOR_LAST
  {
    hide Letters, SYMBOLS_A, SYMBOLS_B, SYMBOLS_C, SYMBOLS_D, VECTOR_CHECKSUM, VECTOR_LAST;
    LettersA();
    LettersB();
    LettersC();
    LettersD();
    LastLetters();
    LettersOf(SYMBOLS_D, [6, 0]);
    LettersOf(SYMBOLS_C, SYMBOLS_D + [6, 0]);
    LettersOf(SYMBOLS_B, SYMBOLS_C + (SYMBOLS_D + [6, 0]));
    LettersOf(SYMBOLS_A, SYMBOLS_B + (SYMBOLS_C + (SYMBOLS_D + [6, 0])));
    TextInPieces();
  }

  /** The fields of the address. */
  lemma VectorFields()
    ensures HEX != []
    ensures var f := FromHex("cfx", HEX);
            && f.network == "cfx" && f.addressType.Text() == "type.user"
            && f.body == VECTOR_BODY && f.checksum == VECTOR_CHECKSUM && WellFormed(f)
  {
    hide BodyOf, ChecksumSymbols, TypeOf, HEX, VECTOR_BODY, VECTOR_CHECKSUM, AddressType.Text;
    VectorType();
    VectorBody();
    VectorChecksum();
    FromHexIsWellFormed("cfx", HEX);
  }

  lemma VectorTexts(f: Fields)
    requires f.network == "cfx" && f.addressType.Text() == "type.user" && WellFormed(f)
    requires f.body == VECTOR_BODY && f.checksum == VECTOR_CHECKSUM
    ensures Printed(f) == "cfx:" + VECTOR_LAST && Verbose(f) == "cfx:type.user:" + VECTOR_LAST
  {
    hide Letters, VECTOR_BODY, VECTOR_CHECKSUM, VECTOR_LAST, AddressType.Text;
    VectorLetters();
    assert "cfx" + ":" == "cfx:";
    assert "cfx:" + "type.user" + ":" == "cfx:type.user:";
  }

  /** The bytes 1a3d17aa…d530 on the main network print as "cfx:" and "cfx:type.user:" before that text, and read back. */
  lemma VectorPrints()
    ensures HEX != []
    ensures var f := FromHex(Cip37Network.NetworkText(1029), HEX);
            && WellFormed(f) && Printed(f) == "cfx:" + VECTOR_LAST && Verbose(f) == "cfx:type.user:" + VECTOR_LAST
            && Defined(Printed(f)) && Read(Printed(f)) == Accepted(f)
            && Defined(Verbose(f)) && Read(Verbose(f)) == Accepted(f)
  {
    hide FromHex, Printed, Verbose, WellFormed, Read, Defined, HEX, VECTOR_LAST, VECTOR_BODY, VECTOR_CHECKSUM;
    hide Cip37Network.NetworkNumber, Cip37Network.NetworkText, AddressType.Text;
    VectorFields();
    Cip37Network.TextsAre(1029);
    VectorTexts(FromHex("cfx", HEX));
    PrintedIsAccepted(1029, HEX);
  }

  lemma VectorType()
    ensures HEX != [] && TypeOf(HEX).Text() == "type.user"
  {
    assert HEX[0] == 0x1a;
    hide HEX;
    TypeIs(HEX);
  }
}
