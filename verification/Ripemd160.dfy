/** The RIPEMD-160 driver (libdevcrypto/Hash.cpp): cutting the message into blocks and padding it. The compression of one block
    is a parameter. */
module Ripemd160 {
  import opened Numbers

  const WORD_COUNT: nat := 0x1_0000_0000

  /** uint32_t */
  type uint32 = x: int | 0 <= x < 0x1_0000_0000

  /** The five words A to E. */
  type Chaining = s: seq<uint32> | |s| == 5 witness [0, 0, 0, 0, 0]

  type Block = s: seq<uint32> | |s| == 16 witness [0, 0, 0, 0, 0, 0, 0, 0, 0, 0, 0, 0, 0, 0, 0, 0]

  type Compression = (Chaining, Block) -> Chaining

  const INITIAL: Chaining := [0x6745_2301, 0xefcd_ab89, 0x98ba_dcfe, 0x1032_5476, 0xc3d2_e1f0]

  // ---------------------------------------------------- what is to be computed

  /** Four bytes as a word, the first one lowest. */
  function Word(b0: byte, b1: byte, b2: byte, b3: byte): uint32 {
    b0 + 0x100 * b1 + 0x1_0000 * b2 + 0x100_0000 * b3
  }

  /** The `w`-th word of a byte string. */
  function WordAt(s: seq<byte>, w: nat): uint32
    requires 4 * w + 4 <= |s|
  {
    Word(s[4 * w], s[4 * w + 1], s[4 * w + 2], s[4 * w + 3])
  }

  function WordsOf(s: seq<byte>): (r: Block)
    requires |s| == 64
  {
    seq(16, w requires 0 <= w < 16 => WordAt(s, w))
  }

  /** The compression folded over blocks of 64 bytes. */
  function Hashed(f: Compression, h: Chaining, s: seq<byte>): Chaining
    requires |s| % 64 == 0
    decreases |s|
  {
    if s == [] then h else Hashed(f, f(h, WordsOf(s[..64])), s[64..])
  }

  function Zeros(n: nat): (r: seq<byte>)
    ensures |r| == n && forall i :: 0 <= i < n ==> r[i] == 0
  {
    seq(n, _ => 0)
  }

  /** `k` bytes of `n`, the lowest first. */
  function LittleEndian(n: nat, k: nat): (r: seq<byte>)
    ensures |r| == k
    decreases k
  {
    if k == 0 then [] else [n % 256] + LittleEndian(n / 256, k - 1)
  }

  /** How many zeros stand between the bit that ends the message and its length. */
  function Gap(n: nat): (z: nat)
    ensures (n + 1 + z + 8) % 64 == 0 && z < 64
  {
    (119 - n % 64) % 64
  }

  /** A one bit, zeros up to 56 modulo 64, and the length in bits as 64 bits (sections 3.1 and 3.2 of RFC 1320). */
  function Padding(n: nat): (r: seq<byte>)
    ensures (n + |r|) % 64 == 0
  {
    [0x80] + Zeros(Gap(n)) + LittleEndian(8 * n, 8)
  }

  function Digest(f: Compression, message: seq<byte>): Chaining {
    Hashed(f, INITIAL, message + Padding(|message|))
  }

  // ------------------------------------------------------- bit operations on words

  /** `x ^ y` on unsigned numbers. */
  function Xor(x: nat, y: nat): nat
    decreases x + y
  {
    if x == 0 then y
    else if y == 0 then x
    else 2 * Xor(x / 2, y / 2) + (if x % 2 != y % 2 then 1 else 0)
  }

  lemma XorBits(x: nat, y: nat, x': nat, y': nat)
    requires x > 0 && y > 0 && x' == x / 2 && y' == y / 2
    ensures Xor(x, y) == 2 * Xor(x', y') + (if x % 2 != y % 2 then 1 else 0)
  {
  }

  lemma XorNothing(x: nat)
    ensures Xor(x, 0) == x && Xor(0, x) == x
  {
  }

  lemma XorEven(h: nat, bit: nat, y: nat)
    requires bit <= 1
    ensures Xor(2 * h + bit, 2 * y) == 2 * Xor(h, y) + bit
  {
    hide Xor;
    XorNothing(2 * h + bit);
    XorNothing(h);
    XorNothing(y);
    XorNothing(2 * y);
    if y > 0 && 2 * h + bit > 0 {
      Halved(y, 0);
      Halved(h, bit);
      XorBits(2 * h + bit, 2 * y, h, y);
    }
  }

  lemma {:induction false} XorDisjoint(d: nat, x: nat, k: nat)
    requires d < Pow(2, k)
    ensures Xor(d, x * Pow(2, k)) == x * Pow(2, k) + d
    decreases k
  {
    hide Pow, Xor;
    if k == 0 {
      NoPower();
      XorNothing(x);
    } else {
      var y := x * Pow(2, k - 1);
      TwicePower(x, k);
      HalfBelowPower(d, k);
      XorDisjoint(d / 2, x, k - 1);
      XorEven(d / 2, d % 2, y);
    }
  }

  /** The two words of a 64-bit number. */
  function Low(n: nat): uint32 { n % WORD_COUNT }

  function High(n: nat): uint32
    requires n < WORD_COUNT * WORD_COUNT
  {
    n / WORD_COUNT
  }

  /** The weight of byte `k` in a word. */
  function Weight(k: nat): nat
    requires k < 4
  {
    if k == 0 then 1 else if k == 1 then 0x100 else if k == 2 then 0x1_0000 else 0x100_0000
  }

  lemma WeightIs(k: nat)
    requires k < 4
    ensures Pow(2, 8 * k) == Weight(k)
  {
    TwoToTheEight();
    PowAdd(2, 8, 8);
    PowAdd(2, 8, 16);
    assert Pow(2, 0) == 1;
  }

  /** XOR with a shifted byte above all bits of the word adds it. */
  lemma XorAdds(x: nat, b: byte, k: nat)
    requires k < 4 && x < Weight(k)
    ensures Xor(x, b * Weight(k)) == x + b * Weight(k) < WORD_COUNT
  {
    WeightIs(k);
    XorDisjoint(x, b, 8 * k);
  }

  lemma OrAdds(x: nat, y: nat, k: nat)
    requires k < 4 && y < Weight(k)
    ensures Or(x * Weight(k), y) == x * Weight(k) + y
  {
    WeightIs(k);
    OrDisjoint(x, 8 * k, y);
  }

  /** BYTES_TO_DWORD. */
  function Dword(b0: byte, b1: byte, b2: byte, b3: byte): nat {
    Or(Or(Or(b3 * 0x100_0000, b2 * 0x1_0000), b1 * 0x100), b0)
  }

  lemma DwordIs(b0: byte, b1: byte, b2: byte, b3: byte)
    ensures Dword(b0, b1, b2, b3) == Word(b0, b1, b2, b3)
  {
    hide Or;
    OrAdds(b3, b2 * 0x1_0000, 3);
    var hi := b3 * 0x100 + b2;
    OrAdds(hi, b1 * 0x100, 2);
    OrAdds(hi * 0x100 + b1, b0, 1);
  }

  // ------------------------------------------------------------ words of a block

  function QuadWord(q: seq<byte>): uint32
    requires |q| == 4
  {
    Word(q[0], q[1], q[2], q[3])
  }

  lemma PutFirst(b: byte, z: byte)
    requires z == 0
    ensures Word(z, z, z, z) == 0 && Word(b, z, z, z) == b
  {
  }

  lemma PutSecond(b0: byte, b: byte)
    ensures Word(b0, 0, 0, 0) < 0x100 && Word(b0, b, 0, 0) == Word(b0, 0, 0, 0) + b * 0x100
  {
  }

  lemma PutThird(b0: byte, b1: byte, b: byte)
    ensures Word(b0, b1, 0, 0) < 0x1_0000 && Word(b0, b1, b, 0) == Word(b0, b1, 0, 0) + b * 0x1_0000
  {
  }

  lemma PutFourth(b0: byte, b1: byte, b2: byte, b: byte)
    ensures Word(b0, b1, b2, 0) < 0x100_0000 && Word(b0, b1, b2, b) == Word(b0, b1, b2, 0) + b * 0x100_0000
  {
  }

  lemma QuadPut(q: seq<byte>, k: nat, b: byte)
    requires |q| == 4 && k < 4 && forall j :: k <= j < 4 ==> q[j] == 0
    ensures QuadWord(q) < Weight(k) && QuadWord(q[k := b]) == QuadWord(q) + b * Weight(k)
  {
    hide Word;
    if k == 0 {
      PutFirst(b, 0);
      assert QuadWord(q[k := b]) == Word(b, 0, 0, 0);
    } else if k == 1 {
      PutSecond(q[0], b);
      assert QuadWord(q[k := b]) == Word(q[0], b, 0, 0);
    } else if k == 2 {
      PutThird(q[0], q[1], b);
      assert QuadWord(q[k := b]) == Word(q[0], q[1], b, 0);
    } else {
      PutFourth(q[0], q[1], q[2], b);
      assert QuadWord(q[k := b]) == Word(q[0], q[1], q[2], b);
    }
  }

  lemma QuadAt(s: seq<byte>, w: nat)
    requires 4 * w + 4 <= |s|
    ensures WordAt(s, w) == QuadWord(s[4 * w..4 * w + 4])
  {
  }

  /** The word that holds place `i` of a block, while the block is zero from there on, and after `b` is put there. */
  lemma PutInWord(s: seq<byte>, b: byte)
    requires |s| < 64
    ensures var i := |s|; var w := i / 4; var x := WordAt(s + Zeros(64 - i), w);
            && x < Weight(i % 4) && WordAt(s + [b] + Zeros(63 - i), w) == x + b * Weight(i % 4)
  {
    hide Word, Weight, Zeros, QuadWord, WordAt;
    var i, w, k := |s|, |s| / 4, |s| % 4;
    var was, now := s + Zeros(64 - i), s + [b] + Zeros(63 - i);
    var q := was[4 * w..4 * w + 4];
    assert now[4 * w..4 * w + 4] == q[k := b];
    QuadPut(q, k, b);
    QuadAt(was, w);
    QuadAt(now, w);
  }

  /** `X[i >> 2] ^= b << 8 * (i & 3)` */
  function Put(x: Block, i: nat, b: byte): Block
    requires i < 64
  {
    x[i / 4 := Low(Xor(x[i / 4], b * Weight(i % 4)))]
  }

  lemma OtherWord(x: seq<byte>, y: seq<byte>, i: nat, v: nat)
    requires |x| == |y| == 64 && v < 16 && v != i / 4 && forall j :: 0 <= j < 64 && j != i ==> x[j] == y[j]
    ensures WordAt(x, v) == WordAt(y, v)
  {
  }

  /** A block in which one byte changes has one word changed. */
  lemma OneWord(x: seq<byte>, y: seq<byte>, i: nat)
    requires |x| == |y| == 64 && i < 64 && forall j :: 0 <= j < 64 && j != i ==> x[j] == y[j]
    ensures WordsOf(y) == WordsOf(x)[i / 4 := WordAt(y, i / 4)]
  {
    hide Word, WordAt;
    forall v | 0 <= v < 16 && v != i / 4 ensures WordAt(y, v) == WordAt(x, v) {
      OtherWord(x, y, i, v);
    }
  }

  /** Where the byte of the word is free, it is added. */
  lemma PutAdds(x: Block, i: nat, b: byte)
    requires i < 64 && x[i / 4] < Weight(i % 4)
    ensures Put(x, i, b) == x[i / 4 := Low(x[i / 4] + b * Weight(i % 4))]
  {
    hide Xor, Weight, Low;
    XorAdds(x[i / 4], b, i % 4);
  }

  lemma SmallLow(n: uint32)
    ensures Low(n) == n
  {
  }

  lemma WordIs(x: seq<byte>, w: nat)
    requires |x| == 64 && w < 16
    ensures WordsOf(x)[w] == WordAt(x, w)
  {
    hide WordAt;
  }

  lemma OneByte(s: seq<byte>, b: byte)
    requires |s| < 64
    ensures var x, y := s + Zeros(64 - |s|), s + [b] + Zeros(63 - |s|);
            |x| == |y| == 64 && forall j :: 0 <= j < 64 && j != |s| ==> x[j] == y[j]
  {
  }

  /** Putting a byte at the first free place of a block. */
  lemma PutByte(s: seq<byte>, b: byte)
    requires |s| < 64
    ensures WordsOf(s + [b] + Zeros(63 - |s|)) == Put(WordsOf(s + Zeros(64 - |s|)), |s|, b)
  {
    hide Put, Low, Weight, Zeros, WordAt, WordsOf;
    var i := |s|;
    var was, now := s + Zeros(64 - i), s + [b] + Zeros(63 - i);
    OneByte(s, b);
    PutInWord(s, b);
    WordIs(was, i / 4);
    PutAdds(WordsOf(was), i, b);
    OneWord(was, now, i);
    SmallLow(WordAt(now, i / 4));
  }

  lemma Nested(n: nat, n1: nat, n2: nat, n3: nat, n4: nat, b0: byte, b1: byte, b2: byte, b3: byte)
    requires n == n1 * 256 + b0 && n1 == n2 * 256 + b1 && n2 == n3 * 256 + b2 && n3 == n4 * 256 + b3
    ensures n == n4 * WORD_COUNT + Word(b0, b1, b2, b3)
  {
  }

  lemma WordCountParts(n: nat, q: nat, r: uint32)
    requires n == q * WORD_COUNT + r
    ensures n % WORD_COUNT == r && n / WORD_COUNT == q
  {
  }

  lemma FourLow(n: nat)
    ensures Word(n % 256, n / 256 % 256, n / 256 / 256 % 256, n / 256 / 256 / 256 % 256) == n % WORD_COUNT
    ensures n / 256 / 256 / 256 / 256 == n / WORD_COUNT
  {
    hide Word;
    var n1 := n / 256;
    var n2 := n1 / 256;
    var n3 := n2 / 256;
    var n4 := n3 / 256;
    Nested(n, n1, n2, n3, n4, n % 256, n1 % 256, n2 % 256, n3 % 256);
    WordCountParts(n, n4, Word(n % 256, n1 % 256, n2 % 256, n3 % 256));
  }

  lemma EightBytes(n: nat)
    requires n < WORD_COUNT * WORD_COUNT
    ensures var l := LittleEndian(n, 8); WordAt(l, 0) == n % WORD_COUNT && WordAt(l, 1) == n / WORD_COUNT
  {
    hide Word;
    FourBytes(n, 8);
    FourBytes(n / WORD_COUNT, 4);
    FourLow(n);
    FourLow(n / WORD_COUNT);
  }

  lemma FourBytes(n: nat, k: nat)
    requires k >= 4
    ensures var n1 := n / 256; var n2 := n1 / 256; var n3 := n2 / 256;
            LittleEndian(n, k) == [n % 256, n1 % 256, n2 % 256, n3 % 256] + LittleEndian(n3 / 256, k - 4)
  {
    var n1 := n / 256;
    var n2 := n1 / 256;
    assert LittleEndian(n, k) == [n % 256] + ([n1 % 256] + LittleEndian(n2, k - 2));
    assert LittleEndian(n2, k - 2) == [n2 % 256] + ([n2 / 256 % 256] + LittleEndian(n2 / 256 / 256, k - 4));
  }

  /** The last two words of a block are the length. */
  lemma LengthWords(s: seq<byte>, n: nat)
    requires |s| == 56 && n < WORD_COUNT * WORD_COUNT
    ensures WordsOf(s + LittleEndian(n, 8)) == WordsOf(s + Zeros(8))[14 := Low(n)][15 := High(n)]
  {
    hide Word, LittleEndian;
    EightBytes(n);
    var l := LittleEndian(n, 8);
    var x, y := s + l, s + Zeros(8);
    forall v | 0 <= v < 14 ensures WordAt(x, v) == WordAt(y, v) {
      assert forall j :: 0 <= j < 56 ==> x[j] == y[j];
    }
    assert forall j :: 0 <= j < 8 ==> x[56 + j] == l[j];
  }

  // ------------------------------------------------------------------- methods

  /** MDcompress, with the compression it is. */
  method MDcompress(f: Compression, mdbuf: array<uint32>, x: array<uint32>)
    requires mdbuf.Length == 5 && x.Length == 16
    modifies mdbuf
    ensures mdbuf[..] == f(old(mdbuf[..]), x[..])
  {
    var r := f(mdbuf[..], x[..]);
    for i := 0 to 5
      invariant forall j :: 0 <= j < i ==> mdbuf[j] == r[j]
    {
      mdbuf[i] := r[i];
    }
  }

  /** memset(X, 0, …) */
  method Clear(x: array<uint32>)
    requires x.Length == 16
    modifies x
    ensures x[..] == WordsOf(Zeros(64))
  {
    for i := 0 to 16
      invariant forall j :: 0 <= j < i ==> x[j] == 0
    {
      x[i] := 0;
    }
  }

  /** The bytes that are left and the one bit behind them. */
  method PutTail(x: array<uint32>, tail: seq<byte>)
    requires x.Length == 16 && |tail| < 64 && x[..] == WordsOf(Zeros(64))
    modifies x
    ensures x[..] == WordsOf(tail + [0x80] + Zeros(63 - |tail|))
  {
    hide WordsOf, Xor, Weight, Zeros;
    assert tail[..0] + Zeros(64) == Zeros(64);
    for i := 0 to |tail|
      invariant x[..] == WordsOf(tail[..i] + Zeros(64 - i))
    {
      PutByte(tail[..i], tail[i]);
      assert tail[..i + 1] == tail[..i] + [tail[i]];
      assert x[i / 4] == x[..][i / 4];
      x[i / 4] := Low(Xor(x[i / 4], tail[i] * Weight(i % 4)));
    }
    var n := |tail|;
    assert tail[..n] == tail;
    PutByte(tail, 0x80);
    assert x[n / 4] == x[..][n / 4];
    x[n / 4] := Low(Xor(x[n / 4], 0x80 * Weight(n % 4)));
  }

  /** What is hashed last: the rest of the message, and its padding for a length of `n` bytes. */
  function Ending(tail: seq<byte>, n: nat): (r: seq<byte>)
    requires |tail| == n % 64
    ensures |r| % 64 == 0
  {
    SameModulo(n, |Padding(n)|);
    tail + Padding(n)
  }

  lemma SameModulo(n: nat, k: nat)
    requires (n + k) % 64 == 0
    ensures (n % 64 + k) % 64 == 0
  {
  }

  lemma HighWord(lsw: uint32, msw: uint32)
    requires msw < 0x2000_0000
    ensures var n := msw * WORD_COUNT + lsw;
            && Or(lsw / 0x2000_0000, Low(msw * 8)) == High(8 * n)
            && Low(lsw * 8) == Low(8 * n)
  {
    hide Or;
    OrSwapped(msw, lsw / 0x2000_0000);
  }

  lemma {:induction false} OrComm(x: nat, y: nat)
    ensures Or(x, y) == Or(y, x)
    decreases x + y
  {
    if x != 0 && y != 0 {
      OrComm(x / 2, y / 2);
    }
  }

  lemma OrSwapped(x: nat, d: nat)
    requires d < 8
    ensures Or(d, x * 8) == x * 8 + d
  {
    OrComm(d, x * 8);
    OrDisjoint(x, 3, d);
    assert Pow(2, 2) == 4;
  }

  /** The length in bits of `n` bytes, into the last two words. */
  method PutLength(x: array<uint32>, lswlen: uint32, mswlen: uint32, ghost n: nat)
    requires x.Length == 16 && mswlen < 0x2000_0000 && n == mswlen * WORD_COUNT + lswlen
    modifies x
    ensures 8 * n < WORD_COUNT * WORD_COUNT && x[..] == old(x[..])[14 := Low(8 * n)][15 := High(8 * n)]
  {
    hide Or, Low, High;
    HighWord(lswlen, mswlen);
    x[14] := Low(lswlen * 8);
    x[15] := Or(lswlen / 0x2000_0000, Low(mswlen * 8));
  }

  /** A block that ends with the length. */
  function WithLength(x: Block, n: nat): Block
    requires 8 * n < WORD_COUNT * WORD_COUNT
  {
    x[14 := Low(8 * n)][15 := High(8 * n)]
  }

  method LastBlock(f: Compression, mdbuf: array<uint32>, x: array<uint32>, lswlen: uint32, mswlen: uint32, ghost n: nat)
    requires mdbuf.Length == 5 && x.Length == 16 && mswlen < 0x2000_0000 && n == mswlen * WORD_COUNT + lswlen
    modifies mdbuf, x
    ensures 8 * n < WORD_COUNT * WORD_COUNT && mdbuf[..] == f(old(mdbuf[..]), WithLength(old(x[..]), n))
  {
    hide Low, High;
    PutLength(x, lswlen, mswlen, n);
    MDcompress(f, mdbuf, x);
  }

  /** MDfinish, for a message of `lswlen + 2^32 mswlen` bytes of which `tail` are left. */
  method MDfinish(f: Compression, mdbuf: array<uint32>, tail: seq<byte>, lswlen: uint32, mswlen: uint32)
    requires mdbuf.Length == 5 && |tail| == lswlen % 64 && mswlen < 0x2000_0000
    modifies mdbuf
    ensures mdbuf[..] == Hashed(f, old(mdbuf[..]), Ending(tail, mswlen * WORD_COUNT + lswlen))
  {
    hide WordsOf, Zeros, Hashed, Ending, WithLength;
    var x := new uint32[16];
    Clear(x);
    PutTail(x, tail);
    ghost var n := mswlen * WORD_COUNT + lswlen;
    ghost var before: Chaining := mdbuf[..];
    if lswlen % 64 > 55 {
      MDcompress(f, mdbuf, x);
      Clear(x);
    }
    LastBlock(f, mdbuf, x, lswlen, mswlen, n);
    if |tail| > 55 {
      TwoBlocks(f, before, tail, n);
    } else {
      OneBlock(f, before, tail, n);
    }
  }

  lemma {:induction false} HashedBlock(f: Compression, h: Chaining, x: seq<byte>, s: seq<byte>)
    requires |x| == 64 && |s| % 64 == 0
    ensures Hashed(f, h, x + s) == Hashed(f, f(h, WordsOf(x)), s)
  {
    hide WordsOf;
    assert (x + s)[..64] == x && (x + s)[64..] == s;
  }

  lemma HashedLast(f: Compression, h: Chaining, x: seq<byte>)
    requires |x| == 64
    ensures Hashed(f, h, x) == f(h, WordsOf(x))
  {
    HashedBlock(f, h, x, []);
    assert x + [] == x;
  }

  lemma GapIs(n: nat)
    ensures Gap(n) == if n % 64 <= 55 then 55 - n % 64 else 119 - n % 64
  {
  }

  /** The length still fits into the block of the tail. */
  lemma OneBlock(f: Compression, h: Chaining, tail: seq<byte>, n: nat)
    requires |tail| == n % 64 <= 55 && 8 * n < WORD_COUNT * WORD_COUNT
    ensures var x := WordsOf(tail + [0x80] + Zeros(63 - |tail|));
            Hashed(f, h, Ending(tail, n)) == f(h, WithLength(x, n))
  {
    hide WordsOf, LittleEndian, Hashed, Gap;
    var s := tail + [0x80] + Zeros(55 - |tail|);
    GapIs(n);
    LengthWords(s, 8 * n);
    assert s + Zeros(8) == tail + [0x80] + Zeros(63 - |tail|);
    assert Ending(tail, n) == s + LittleEndian(8 * n, 8);
    HashedLast(f, h, Ending(tail, n));
  }

  /** The length goes to a block of its own. */
  lemma TwoBlocks(f: Compression, h: Chaining, tail: seq<byte>, n: nat)
    requires |tail| == n % 64 > 55 && 8 * n < WORD_COUNT * WORD_COUNT
    ensures var x := WordsOf(tail + [0x80] + Zeros(63 - |tail|));
            Hashed(f, h, Ending(tail, n)) == f(f(h, x), WithLength(WordsOf(Zeros(64)), n))
  {
    hide WordsOf, LittleEndian, Hashed, Gap;
    var x, y := tail + [0x80] + Zeros(63 - |tail|), Zeros(56) + LittleEndian(8 * n, 8);
    GapIs(n);
    LengthWords(Zeros(56), 8 * n);
    assert Zeros(56) + Zeros(8) == Zeros(64);
    assert Ending(tail, n) == x + y;
    HashedBlock(f, h, x, y);
    HashedLast(f, f(h, WordsOf(x)), y);
  }

  /** One block of the message. */
  method TakeChunk(current: array<uint32>, message: seq<byte>)
    requires current.Length == 16 && |message| == 64
    modifies current
    ensures current[..] == WordsOf(message)
  {
    hide Or, Word;
    for i := 0 to 16
      invariant forall w :: 0 <= w < i ==> current[w] == WordAt(message, w)
    {
      DwordIs(message[4 * i], message[4 * i + 1], message[4 * i + 2], message[4 * i + 3]);
      current[i] := Dword(message[4 * i], message[4 * i + 1], message[4 * i + 2], message[4 * i + 3]);
    }
  }

  /** One turn of the loop. */
  method Chunk(f: Compression, buffer: array<uint32>, current: array<uint32>, x: seq<byte>, ghost rest: seq<byte>)
    requires buffer.Length == 5 && current.Length == 16 && |x| == 64 && |rest| % 64 == 0
    modifies buffer, current
    ensures Hashed(f, buffer[..], rest) == Hashed(f, old(buffer[..]), x + rest)
  {
    hide WordsOf, Hashed;
    ghost var h: Chaining := buffer[..];
    TakeChunk(current, x);
    MDcompress(f, buffer, current);
    HashedBlock(f, h, x, rest);
  }

  /** The next block, and what is behind it. */
  lemma NextBlock(input: seq<byte>, message: nat, n: nat, end: seq<byte>)
    requires message + 64 <= n <= |input| && message % 64 == 0 && (n + |end|) % 64 == 0
    ensures var rest := input[message + 64..n] + end;
            |rest| % 64 == 0 && input[message..n] + end == input[message..message + 64] + rest
  {
  }

  /** The loop over whole blocks; `remaining` is the size cut down to 32 bits. What it leaves is to be hashed with `end`
      behind. */
  method Absorb(f: Compression, buffer: array<uint32>, input: seq<byte>, ghost end: seq<byte>) returns (message: nat)
    requires buffer.Length == 5 && (|input| % WORD_COUNT + |end|) % 64 == 0
    modifies buffer
    ensures var n := |input| % WORD_COUNT;
            && message == n - n % 64
            && Hashed(f, buffer[..], input[message..n] + end) == Hashed(f, old(buffer[..]), input[..n] + end)
  {
    hide WordsOf, Hashed;
    var current := new uint32[16];
    ghost var n := |input| % WORD_COUNT;
    ghost var goal := Hashed(f, buffer[..], input[..n] + end);
    message := 0;
    var remaining: uint32 := |input| % WORD_COUNT;
    assert input[0..n] == input[..n];
    while remaining >= 64
      invariant message + remaining == n && message % 64 == 0
      invariant Hashed(f, buffer[..], input[message..n] + end) == goal
    {
      ghost var rest := input[message + 64..n] + end;
      NextBlock(input, message, n, end);
      Chunk(f, buffer, current, input[message..message + 64], rest);
      message := message + 64;
      remaining := remaining - 64;
    }
  }

  /** ripemd160. The size is kept in 32 bits: of a longer input only the first bytes are hashed, as many as the size leaves
      modulo 2^32. */
  method Hash(f: Compression, input: seq<byte>) returns (hashcode: array<byte>)
    ensures fresh(hashcode) && hashcode.Length == 20
    ensures var message := input[..|input| % WORD_COUNT];
            forall w :: 0 <= w < 5 ==> WordAt(hashcode[..], w) == Digest(f, message)[w]
  {
    hide Hashed, Padding, Ending, WordAt;
    var buffer := new uint32[5](i requires 0 <= i < 5 => INITIAL[i]);
    assert buffer[..] == INITIAL;
    var n: uint32 := |input| % WORD_COUNT;
    var message := Absorb(f, buffer, input, Padding(n));
    assert input[message..n] + Padding(n) == Ending(input[message..n], n) by {
      EndingIs(input[message..n], n);
    }
    MDfinish(f, buffer, input[message..n], n, 0);
    hashcode := Spell(buffer);
  }

  lemma EndingIs(tail: seq<byte>, n: nat)
    requires |tail| == n % 64
    ensures Ending(tail, n) == tail + Padding(n)
  {
    hide Padding;
  }

  method SpellWord(hashcode: array<byte>, w: nat, x: uint32)
    requires 4 * w + 4 <= hashcode.Length
    modifies hashcode
    ensures WordAt(hashcode[..], w) == x
    ensures forall j :: 0 <= j < 4 * w ==> hashcode[j] == old(hashcode[j])
  {
    hide Word;
    FourLow(x);
    hashcode[4 * w] := x % 256;
    hashcode[4 * w + 1] := x / 256 % 256;
    hashcode[4 * w + 2] := x / 256 / 256 % 256;
    hashcode[4 * w + 3] := x / 256 / 256 / 256 % 256;
  }

  /** The words written out, lowest byte first. */
  method Spell(buffer: array<uint32>) returns (hashcode: array<byte>)
    requires buffer.Length == 5
    ensures fresh(hashcode) && hashcode.Length == 20
    ensures forall w :: 0 <= w < 5 ==> WordAt(hashcode[..], w) == buffer[w]
  {
    hide Word;
    hashcode := new byte[20](_ => 0);
    for w := 0 to 5
      invariant forall v :: 0 <= v < w ==> WordAt(hashcode[..], v) == buffer[v]
    {
      ghost var was := hashcode[..];
      SpellWord(hashcode, w, buffer[w]);
      forall v | 0 <= v < w ensures WordAt(hashcode[..], v) == WordAt(was, v) {
        assert forall j :: 0 <= j < 4 * w ==> hashcode[..][j] == was[j];
      }
    }
  }

  // ------------------------------------------------------------------ the padding

  lemma {:induction false} LittleEndianInjective(m: nat, n: nat, k: nat)
    requires LittleEndian(m, k) == LittleEndian(n, k) && m < Pow(256, k) && n < Pow(256, k)
    ensures m == n
    decreases k
  {
    if k > 0 {
      var x, y := LittleEndian(m, k), LittleEndian(n, k);
      assert x[0] == m % 256 && y[0] == n % 256;
      assert x[1..] == LittleEndian(m / 256, k - 1) && y[1..] == LittleEndian(n / 256, k - 1);
      LittleEndianInjective(m / 256, n / 256, k - 1);
    }
  }

  /** Different messages stay different when they are padded. */
  lemma PaddingIsInjective(s: seq<byte>, t: seq<byte>)
    requires 8 * |s| < SIZE_T_COUNT && 8 * |t| < SIZE_T_COUNT
    ensures s + Padding(|s|) == t + Padding(|t|) <==> s == t
  {
    hide LittleEndian, Gap, Zeros;
    var x, y := s + Padding(|s|), t + Padding(|t|);
    if x == y {
      assert x[|x| - 8..] == LittleEndian(8 * |s|, 8);
      assert y[|y| - 8..] == LittleEndian(8 * |t|, 8);
      PowEight();
      LittleEndianInjective(8 * |s|, 8 * |t|, 8);
      assert s == x[..|s|] && t == y[..|t|];
    }
  }

  lemma LowestTells(b: byte, m: nat, c: byte, n: nat)
    requires b + 0x100 * m == c + 0x100 * n
    ensures b == c && m == n
  {
  }

  lemma WordNests(b0: byte, b1: byte, b2: byte, b3: byte)
    ensures Word(b0, b1, b2, b3) == b0 + 0x100 * (b1 + 0x100 * (b2 + 0x100 * b3))
  {
  }

  /** A word tells its bytes. */
  lemma WordTells(b0: byte, b1: byte, b2: byte, b3: byte, c0: byte, c1: byte, c2: byte, c3: byte)
    requires Word(b0, b1, b2, b3) == Word(c0, c1, c2, c3)
    ensures b0 == c0 && b1 == c1 && b2 == c2 && b3 == c3
  {
    hide Word;
    WordNests(b0, b1, b2, b3);
    WordNests(c0, c1, c2, c3);
    LowestTells(b0, b1 + 0x100 * (b2 + 0x100 * b3), c0, c1 + 0x100 * (c2 + 0x100 * c3));
    LowestTells(b1, b2 + 0x100 * b3, c1, c2 + 0x100 * c3);
    LowestTells(b2, b3, c2, c3);
  }

  lemma SameWords(x: seq<byte>, y: seq<byte>)
    requires |x| == |y| == 20 && forall w :: 0 <= w < 5 ==> WordAt(x, w) == WordAt(y, w)
    ensures x == y
  {
    hide Word;
    forall i | 0 <= i < 20 ensures x[i] == y[i] {
      var w := i / 4;
      assert WordAt(x, w) == WordAt(y, w);
      WordTells(x[4 * w], x[4 * w + 1], x[4 * w + 2], x[4 * w + 3], y[4 * w], y[4 * w + 1], y[4 * w + 2], y[4 * w + 3]);
    }
  }

  lemma {:induction false} HashedNothing(f: Compression, h: Chaining, s: seq<byte>)
    requires |s| % 64 == 0 && forall g: Chaining, x: Block :: f(g, x) == g
    ensures Hashed(f, h, s) == h
    decreases |s|
  {
    hide WordsOf;
    if s != [] {
      HashedNothing(f, f(h, WordsOf(s[..64])), s[64..]);
    }
  }

  /** What MDinit sets, spelled: a compression that leaves the words as they are shows it, whatever the message. */
  method HashShowsStart(f: Compression, input: seq<byte>) returns (hashcode: array<byte>)
    requires forall g: Chaining, x: Block :: f(g, x) == g
    ensures fresh(hashcode)
    ensures hashcode[..] == [0x01, 0x23, 0x45, 0x67, 0x89, 0xab, 0xcd, 0xef, 0xfe, 0xdc, 0xba, 0x98, 0x76, 0x54, 0x32, 0x10,
                             0xf0, 0xe1, 0xd2, 0xc3]
  {
    hashcode := Hash(f, input);
    ghost var message := input[..|input| % WORD_COUNT];
    HashedNothing(f, INITIAL, message + Padding(|message|));
    StartIs(hashcode[..]);
  }

  lemma StartWords()
    ensures INITIAL[0] == Word(0x01, 0x23, 0x45, 0x67) && INITIAL[1] == Word(0x89, 0xab, 0xcd, 0xef)
    ensures INITIAL[2] == Word(0xfe, 0xdc, 0xba, 0x98) && INITIAL[3] == Word(0x76, 0x54, 0x32, 0x10)
    ensures INITIAL[4] == Word(0xf0, 0xe1, 0xd2, 0xc3)
  {
  }

  lemma StartIs(s: seq<byte>)
    requires |s| == 20 && forall w :: 0 <= w < 5 ==> WordAt(s, w) == INITIAL[w]
    ensures s == [0x01, 0x23, 0x45, 0x67, 0x89, 0xab, 0xcd, 0xef, 0xfe, 0xdc, 0xba, 0x98, 0x76, 0x54, 0x32, 0x10,
                  0xf0, 0xe1, 0xd2, 0xc3]
  {
    hide Word;
    StartWords();
    assert WordAt(s, 0) == INITIAL[0] && WordAt(s, 1) == INITIAL[1] && WordAt(s, 2) == INITIAL[2];
    assert WordAt(s, 3) == INITIAL[3] && WordAt(s, 4) == INITIAL[4];
    WordTells(s[0], s[1], s[2], s[3], 0x01, 0x23, 0x45, 0x67);
    WordTells(s[4], s[5], s[6], s[7], 0x89, 0xab, 0xcd, 0xef);
    WordTells(s[8], s[9], s[10], s[11], 0xfe, 0xdc, 0xba, 0x98);
    WordTells(s[12], s[13], s[14], s[15], 0x76, 0x54, 0x32, 0x10);
    WordTells(s[16], s[17], s[18], s[19], 0xf0, 0xe1, 0xd2, 0xc3);
  }

  lemma {:induction false} HashedLastBlock(f: Compression, h: Chaining, s: seq<byte>, k: nat)
    requires |s| % 64 == 0 && s != [] && k <= 11 && forall g: Chaining, x: Block :: f(g, x) == x[k..k + 5]
    ensures Hashed(f, h, s) == WordsOf(s[|s| - 64..])[k..k + 5]
    decreases |s|
  {
    hide WordsOf;
    var rest := s[64..];
    if rest == [] {
      assert s[..64] == s && s[|s| - 64..] == s;
      assert Hashed(f, f(h, WordsOf(s)), rest) == f(h, WordsOf(s));
    } else {
      HashedLastBlock(f, f(h, WordsOf(s[..64])), rest, k);
      assert rest[|rest| - 64..] == s[|s| - 64..];
    }
  }

  /** What the last block holds: a compression that returns five words of it shows its bytes, those of the padded message. */
  method HashShowsLastBlock(f: Compression, input: seq<byte>, k: nat) returns (hashcode: array<byte>)
    requires k <= 11 && |input| < WORD_COUNT && forall g: Chaining, x: Block :: f(g, x) == x[k..k + 5]
    ensures fresh(hashcode)
    ensures var m := input + Padding(|input|); hashcode[..] == m[|m| - 64..][4 * k..4 * k + 20]
  {
    hide Padding, WordAt;
    hashcode := Hash(f, input);
    ShortMessages(input);
    ghost var m := input + Padding(|input|);
    PaddingIs(|input|);
    HashedLastBlock(f, INITIAL, m, k);
    ghost var x := m[|m| - 64..];
    forall w | 0 <= w < 5 ensures WordAt(hashcode[..], w) == WordAt(x[4 * k..4 * k + 20], w) {
      BlockWord(x, k, w);
    }
    SameWords(hashcode[..], m[|m| - 64..][4 * k..4 * k + 20]);
  }

  lemma BlockWord(x: seq<byte>, k: nat, w: nat)
    requires |x| == 64 && k <= 11 && w < 5
    ensures WordAt(x[4 * k..4 * k + 20], w) == WordsOf(x)[k + w]
  {
    hide Word;
  }

  /** The padding: 0x80, zeros up to the last eight bytes of a block, as few as will do, and there the length in bits, lowest byte
      first. */
  lemma PaddingIs(n: nat)
    ensures var p := Padding(n); var k := |p| - 9;
            && 0 <= k < 64 && (n + |p|) % 64 == 0
            && p[0] == 0x80 && (forall i :: 1 <= i <= k ==> p[i] == 0)
            && (8 * n < SIZE_T_COUNT ==> FromLittleEndian(p[k + 1..]) == 8 * n)
  {
    hide LittleEndian, FromLittleEndian;
    var p := Padding(n);
    var k := |p| - 9;
    assert p[k + 1..] == LittleEndian(8 * n, 8);
    if 8 * n < SIZE_T_COUNT {
      PowEight();
      LittleEndianReads(8 * n, 8);
    }
  }

  /** The number that bytes write, the first one lowest. */
  function FromLittleEndian(s: seq<byte>): nat {
    if s == [] then 0 else s[0] + 256 * FromLittleEndian(s[1..])
  }

  lemma {:induction false} LittleEndianReads(n: nat, k: nat)
    requires n < Pow(256, k)
    ensures FromLittleEndian(LittleEndian(n, k)) == n
    decreases k
  {
    if k > 0 {
      LittleEndianReads(n / 256, k - 1);
      assert LittleEndian(n, k)[1..] == LittleEndian(n / 256, k - 1);
    }
  }

  /** Below 2^32 bytes nothing is cut off. */
  lemma ShortMessages(input: seq<byte>)
    ensures input[..|input| % WORD_COUNT] == input <==> |input| < WORD_COUNT
  {
  }
}
