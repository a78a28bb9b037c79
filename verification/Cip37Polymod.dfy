/** The 40-bit checksum register (libcfxcore/types/cfxaddress/lib.cpp) and the errors it detects. */
module Cip37Polymod {
  import opened Numbers

  type word = bv64

  const REGISTER_LIMIT: word := 0x100_0000_0000

  function Xor(x: word, y: word): word { x ^ y }

  /** The five bits that the next shift pushes out. */
  function Top(c: word): word { c >> 35 }

  function Lift(c: word): word { (c & 0x07_ffff_ffff) << 5 }

  /** The generator `g` is added when the bit of `c0` under `mask` is set. */
  function Fed(r: word, c0: word, mask: word, g: word): word {
    if c0 & mask != 0 then Xor(r, g) else r
  }

  /** One turn of the loop: shift in five bits, feed the five bits shifted out back through the generators. */
  function Step(c: word, d: word): word {
    var c0 := Top(c);
    Fed(Fed(Fed(Fed(Fed(Xor(Lift(c), d), c0, 0x01, 0x98_f2bc_8e61), c0, 0x02, 0x79_b76d_99e2),
                c0, 0x04, 0xf3_3e5f_b3c4), c0, 0x08, 0xae_2eab_e2a8), c0, 0x10, 0x1e_4f43_e470)
  }

  /** A word with one bit more at its low end. */
  function Join(high: word, bit: bool): word {
    (high << 1) | (if bit then 1 else 0)
  }

  function Half(c: word): word { c >> 1 }

  predicate Odd(c: word) { c & 1 == 1 }

  /** A number as a machine word. */
  function Bits(n: nat): word {
    if n == 0 then 0 else Join(Bits(n / 2), n % 2 == 1)
  }

  /** The low `k` bits of a word as a number. */
  function Num(c: word, k: nat): nat
    decreases k
  {
    if k == 0 then 0 else 2 * Num(Half(c), k - 1) + (if Odd(c) then 1 else 0)
  }

  /** The register after the symbols `v`. */
  function Register(c: word, v: seq<byte>): word
    decreases |v|
  {
    if v == [] then c else Register(Step(c, Bits(v[0])), v[1..])
  }

  function Checksum(v: seq<byte>): word {
    Xor(Register(1, v), 1)
  }

  method Feed(c: word, c0: word, mask: word, g: word) returns (r: word)
    ensures r == Fed(c, c0, mask, g)
  {
    r := c;
    if c0 & mask != 0 {
      r := r ^ g;
    }
  }

  /** The body of the loop. */
  method Turn(c: word, d: word) returns (r: word)
    ensures r == Step(c, d)
  {
    hide Fed;
    var c0 := c >> 35;
    assert c0 == Top(c);
    r := ((c & 0x07_ffff_ffff) << 5) ^ d;
    r := Feed(r, c0, 0x01, 0x98_f2bc_8e61);
    r := Feed(r, c0, 0x02, 0x79_b76d_99e2);
    r := Feed(r, c0, 0x04, 0xf3_3e5f_b3c4);
    r := Feed(r, c0, 0x08, 0xae_2eab_e2a8);
    r := Feed(r, c0, 0x10, 0x1e_4f43_e470);
  }

  /** `polymod`; the register never needs more than 40 bits. */
  method Polymod(v: seq<byte>) returns (r: word)
    ensures r == Checksum(v) && r < REGISTER_LIMIT
  {
    hide Step, Bits;
    var c: word := 1;
    for i := 0 to |v|
      invariant Register(1, v) == Register(c, v[i..]) && c < REGISTER_LIMIT
    {
      ByteBits(v[i]);
      StepStays(c, Bits(v[i]));
      assert v[i..][0] == v[i] && v[i..][1..] == v[i + 1..];
      c := Turn(c, Bits(v[i]));
    }
    assert v[|v|..] == [];
    FlipLast(c);
    return c ^ 1;
  }

  lemma FlipLast(c: word)
    ensures c < REGISTER_LIMIT <==> c ^ 1 < REGISTER_LIMIT
  {
  }

  lemma StepStays(c: word, d: word)
    requires c < REGISTER_LIMIT && d < 256
    ensures Step(c, d) < REGISTER_LIMIT
  {
    hide Fed, Lift, Top;
    var c0 := Top(c);
    LiftBelow(c, d);
    var r := Xor(Lift(c), d);
    FedBelow(r, c0, 0x01, 0x98_f2bc_8e61);
    r := Fed(r, c0, 0x01, 0x98_f2bc_8e61);
    FedBelow(r, c0, 0x02, 0x79_b76d_99e2);
    r := Fed(r, c0, 0x02, 0x79_b76d_99e2);
    FedBelow(r, c0, 0x04, 0xf3_3e5f_b3c4);
    r := Fed(r, c0, 0x04, 0xf3_3e5f_b3c4);
    FedBelow(r, c0, 0x08, 0xae_2eab_e2a8);
    r := Fed(r, c0, 0x08, 0xae_2eab_e2a8);
    FedBelow(r, c0, 0x10, 0x1e_4f43_e470);
  }

  lemma LiftBelow(c: word, d: word)
    requires d < 256
    ensures Xor(Lift(c), d) < REGISTER_LIMIT
  {
  }

  lemma FedBelow(r: word, c0: word, mask: word, g: word)
    requires r < REGISTER_LIMIT && g < REGISTER_LIMIT
    ensures Fed(r, c0, mask, g) < REGISTER_LIMIT
  {
  }

  // -------------------------------------------------------- words and numbers

  /** 2^k */
  function Cap(k: nat): word
    requires k <= 8
  {
    if k == 0 then 1 else if k == 1 then 2 else if k == 2 then 4 else if k == 3 then 8 else if k == 4 then 16
    else if k == 5 then 32 else if k == 6 then 64 else if k == 7 then 128 else 256
  }

  lemma JoinBelow(x: word, y: word, bit: bool)
    requires x < y <= 0x80
    ensures Join(x, bit) < y << 1 <= 0x100
  {
  }

  lemma Joined(x: word, bit: bool)
    requires x < 0x100
    ensures Half(Join(x, bit)) == x && (Odd(Join(x, bit)) <==> bit)
  {
  }

  lemma NoBits()
    ensures Bits(0) == 0 && Join(0, false) == 0
  {
  }

  lemma BitsStep(n: nat)
    ensures Bits(n) == Join(Bits(n / 2), n % 2 == 1)
  {
    NoBits();
  }

  lemma CapRange(k: nat)
    requires k <= 8
    ensures 0 < Cap(k) <= 0x100 && (k < 8 ==> Cap(k) <= 0x80)
  {
  }

  lemma {:induction false} BitsBelow(n: nat, k: nat)
    requires k <= 8 && n < Pow(2, k)
    ensures Bits(n) < Cap(k)
    decreases k
  {
    hide Bits, Join;
    CapRange(k);
    if k == 0 {
      NoBits();
    } else {
      HalfBelowPower(n, k);
      BitsBelow(n / 2, k - 1);
      CapRange(k - 1);
      BitsStep(n);
      JoinBelow(Bits(n / 2), Cap(k - 1), n % 2 == 1);
    }
  }

  lemma ByteBits(d: byte)
    ensures Bits(d) < 256 && (d < 32 ==> Bits(d) < 32)
  {
    hide Bits, Pow;
    TwoToTheEight();
    BitsBelow(d, 8);
    CapRange(8);
    if d < 32 {
      BitsBelow(d, 5);
    }
  }

  // ------------------------------------------------------------- linearity

  lemma Regrouped(x: word, y: word, z: word, xy: word, yz: word)
    requires xy == x ^ y && yz == y ^ z
    ensures xy ^ z == x ^ yz
  {
  }

  lemma XorIs(x: word, y: word, r: word)
    requires r == Xor(x, y)
    ensures r == x ^ y
  {
  }

  lemma IsXor(x: word, y: word, r: word)
    requires r == x ^ y
    ensures r == Xor(x, y)
  {
  }

  lemma XorAssoc(x: word, y: word, z: word)
    ensures Xor(Xor(x, y), z) == Xor(x, Xor(y, z))
  {
    hide Xor;
    var xy, yz := Xor(x, y), Xor(y, z);
    XorIs(x, y, xy);
    XorIs(y, z, yz);
    Regrouped(x, y, z, xy, yz);
    IsXor(xy, z, xy ^ z);
    IsXor(x, yz, x ^ yz);
  }

  lemma XorComm(x: word, y: word)
    ensures Xor(x, y) == Xor(y, x)
  {
  }

  lemma XorSelf(x: word)
    ensures Xor(x, x) == 0
  {
  }

  lemma XorZero(x: word)
    ensures Xor(x, 0) == x && Xor(0, x) == x
  {
  }

  /** (x + y) + (z + w) == (x + z) + (y + w) */
  lemma XorSwap(x: word, y: word, z: word, w: word)
    ensures Xor(Xor(x, y), Xor(z, w)) == Xor(Xor(x, z), Xor(y, w))
  {
    hide Xor;
    XorAssoc(x, y, Xor(z, w));
    XorAssoc(y, z, w);
    XorComm(y, z);
    XorAssoc(z, y, w);
    XorAssoc(x, z, Xor(y, w));
  }

  lemma XorEqual(x: word, y: word)
    ensures Xor(x, y) == 0 <==> x == y
  {
    hide Xor;
    XorSelf(x);
    XorAssoc(x, y, y);
    XorSelf(y);
    XorZero(x);
    XorZero(y);
  }

  lemma RawLift(c1: word, c2: word, c: word, l1: word, l2: word)
    requires c == c1 ^ c2 && l1 == c1 & 0x07_ffff_ffff && l2 == c2 & 0x07_ffff_ffff
    ensures (c & 0x07_ffff_ffff) << 5 == (l1 << 5) ^ (l2 << 5)
  {
  }

  lemma LiftXor(c1: word, c2: word)
    ensures Lift(Xor(c1, c2)) == Xor(Lift(c1), Lift(c2))
  {
    RawLift(c1, c2, Xor(c1, c2), c1 & 0x07_ffff_ffff, c2 & 0x07_ffff_ffff);
  }

  lemma RawTop(c1: word, c2: word, c: word)
    requires c == c1 ^ c2
    ensures c >> 35 == (c1 >> 35) ^ (c2 >> 35)
  {
  }

  lemma TopXor(c1: word, c2: word)
    ensures Top(Xor(c1, c2)) == Xor(Top(c1), Top(c2))
  {
    RawTop(c1, c2, Xor(c1, c2));
  }

  lemma BitXor(a: word, b: word, mask: word)
    requires mask == 1 || mask == 2 || mask == 4 || mask == 8 || mask == 16
    ensures Xor(a, b) & mask != 0 <==> (a & mask != 0) != (b & mask != 0)
  {
  }

  lemma FedXor(r1: word, r2: word, a: word, b: word, mask: word, g: word)
    requires mask == 1 || mask == 2 || mask == 4 || mask == 8 || mask == 16
    ensures Fed(Xor(r1, r2), Xor(a, b), mask, g) == Xor(Fed(r1, a, mask, g), Fed(r2, b, mask, g))
  {
    hide Xor;
    BitXor(a, b, mask);
    XorSelf(g);
    XorZero(Xor(r1, r2));
    XorSwap(r1, g, r2, g);
    XorAssoc(r1, r2, g);
    XorAssoc(r1, g, r2);
    XorComm(g, r2);
  }

  /** The register is linear over GF(2): the difference of two runs runs like the register itself. */
  lemma StepXor(c1: word, c2: word, d1: word, d2: word)
    ensures Step(Xor(c1, c2), Xor(d1, d2)) == Xor(Step(c1, d1), Step(c2, d2))
  {
    hide Fed, Lift, Top, Xor;
    var a, b := Top(c1), Top(c2);
    var r1, r2 := Xor(Lift(c1), d1), Xor(Lift(c2), d2);
    TopXor(c1, c2);
    LiftXor(c1, c2);
    XorSwap(Lift(c1), d1, Lift(c2), d2);
    FedXor(r1, r2, a, b, 0x01, 0x98_f2bc_8e61);
    r1, r2 := Fed(r1, a, 0x01, 0x98_f2bc_8e61), Fed(r2, b, 0x01, 0x98_f2bc_8e61);
    FedXor(r1, r2, a, b, 0x02, 0x79_b76d_99e2);
    r1, r2 := Fed(r1, a, 0x02, 0x79_b76d_99e2), Fed(r2, b, 0x02, 0x79_b76d_99e2);
    FedXor(r1, r2, a, b, 0x04, 0xf3_3e5f_b3c4);
    r1, r2 := Fed(r1, a, 0x04, 0xf3_3e5f_b3c4), Fed(r2, b, 0x04, 0xf3_3e5f_b3c4);
    FedXor(r1, r2, a, b, 0x08, 0xae_2eab_e2a8);
    r1, r2 := Fed(r1, a, 0x08, 0xae_2eab_e2a8), Fed(r2, b, 0x08, 0xae_2eab_e2a8);
    FedXor(r1, r2, a, b, 0x10, 0x1e_4f43_e470);
  }

  /** Nothing but zero shifts to zero: the generators' low five bits are 1, 2, 4, 8 and 16. */
  lemma StepInjective(c: word)
    requires c < REGISTER_LIMIT
    ensures Step(c, 0) == 0 <==> c == 0
  {
  }

  /** How the difference `x` of two registers grows over the inputs `a` and `b`. */
  function Spread(x: word, a: seq<byte>, b: seq<byte>): word
    requires |a| == |b|
    decreases |a|
  {
    if a == [] then x else Spread(Step(x, Xor(Bits(a[0]), Bits(b[0]))), a[1..], b[1..])
  }

  lemma {:induction false} RegistersDiffer(c1: word, c2: word, a: seq<byte>, b: seq<byte>)
    requires |a| == |b|
    ensures Xor(Register(c1, a), Register(c2, b)) == Spread(Xor(c1, c2), a, b)
    decreases |a|
  {
    hide Step, Bits, Xor;
    if a != [] {
      StepXor(c1, c2, Bits(a[0]), Bits(b[0]));
      RegistersDiffer(Step(c1, Bits(a[0])), Step(c2, Bits(b[0])), a[1..], b[1..]);
    }
  }

  lemma {:induction false} SpreadConcat(x: word, a: seq<byte>, b: seq<byte>, s: seq<byte>, t: seq<byte>)
    requires |a| == |b| && |s| == |t|
    ensures Spread(x, a + s, b + t) == Spread(Spread(x, a, b), s, t)
    decreases |a|
  {
    hide Step, Bits, Xor;
    if a == [] {
      assert a + s == s && b + t == t;
    } else {
      assert (a + s)[1..] == a[1..] + s && (b + t)[1..] == b[1..] + t;
      SpreadConcat(Step(x, Xor(Bits(a[0]), Bits(b[0]))), a[1..], b[1..], s, t);
    }
  }

  /** Equal input neither makes a difference nor removes one. */
  lemma {:induction false} SameInput(x: word, s: seq<byte>)
    requires x < REGISTER_LIMIT
    ensures Spread(x, s, s) == 0 <==> x == 0
    decreases |s|
  {
    hide Step, Bits, Xor;
    if s != [] {
      XorSelf(Bits(s[0]));
      StepInjective(x);
      StepStays(x, 0);
      SameInput(Step(x, 0), s[1..]);
    }
  }

  // ------------------------------------------------- the first eight symbols

  /** 32^m */
  function Room(m: nat): word
    requires m <= 8
  {
    if m == 0 then 1 else if m == 1 then 0x20 else if m == 2 then 0x400 else if m == 3 then 0x8000
    else if m == 4 then 0x10_0000 else if m == 5 then 0x200_0000 else if m == 6 then 0x4000_0000
    else if m == 7 then 0x8_0000_0000 else REGISTER_LIMIT
  }

  lemma RoomRange(m: nat)
    requires m <= 8
    ensures 0 < Room(m) <= REGISTER_LIMIT && (m < 8 ==> Room(m) <= 0x8_0000_0000)
  {
  }

  function Append(x: word, d: word): word { (x << 5) | d }

  /** Without feedback a step appends five bits. */
  lemma Appends(x: word, d: word)
    requires x < 0x8_0000_0000 && d < 32
    ensures Step(x, d) == Append(x, d)
  {
  }

  lemma AppendZero(x: word, d: word)
    requires x < 0x8_0000_0000 && d < 32
    ensures Append(x, d) == 0 <==> x == 0 && d == 0
  {
  }

  lemma XorBelow(d: word, e: word)
    requires d < 32 && e < 32
    ensures Xor(d, e) < 32
  {
  }

  /** What a register that took `m` symbols from zero keeps within. */
  predicate Within(x: word, m: nat)
    requires m <= 8
  {
    x < Room(m)
  }

  lemma AppendWithin(x: word, d: word, m: nat)
    requires m < 8 && Within(x, m) && d < 32
    ensures Within(Append(x, d), m + 1)
  {
  }

  lemma OneMoreWithin(x: word, d: word, m: nat)
    requires m < 8 && Within(x, m) && d < 32
    ensures Within(Step(x, d), m + 1)
  {
    hide Step, Append, Room;
    RoomRange(m);
    Appends(x, d);
    hide Within;
    AppendWithin(x, d, m);
  }

  lemma OneMoreZero(x: word, d: word, m: nat)
    requires m < 8 && Within(x, m) && d < 32
    ensures Step(x, d) == 0 <==> x == 0 && d == 0
  {
    hide Step, Append, Room;
    RoomRange(m);
    Appends(x, d);
    AppendZero(x, d);
  }

  lemma SymbolsDiffer(d: byte, e: byte)
    requires d < 32 && e < 32
    ensures Xor(Bits(d), Bits(e)) < 32 && (Xor(Bits(d), Bits(e)) == 0 <==> d == e)
  {
    hide Xor, Bits;
    ByteBits(d);
    ByteBits(e);
    XorBelow(Bits(d), Bits(e));
    XorEqual(Bits(d), Bits(e));
    BitsInjective(d, e);
  }

  /** Over at most eight symbols a difference cannot cancel. */
  lemma {:induction false} BurstSpreads(x: word, u: seq<byte>, v: seq<byte>, m: nat)
    requires |u| == |v| && m + |u| <= 8 && AllBelow(u, 32) && AllBelow(v, 32)
    requires Within(x, m)
    ensures Spread(x, u, v) == 0 <==> x == 0 && u == v
    ensures Within(Spread(x, u, v), m + |u|)
    decreases |u|
  {
    hide Step, Bits, Room, Num, Pow, Xor, Within;
    if u != [] {
      var y := Xor(Bits(u[0]), Bits(v[0]));
      SymbolsDiffer(u[0], v[0]);
      OneMoreWithin(x, y, m);
      OneMoreZero(x, y, m);
      BurstSpreads(Step(x, y), u[1..], v[1..], m + 1);
      assert u == [u[0]] + u[1..] && v == [v[0]] + v[1..];
    }
  }

  lemma {:induction false} NumOfBits(n: nat, k: nat)
    requires k <= 8 && n < Pow(2, k)
    ensures Num(Bits(n), k) == n
    decreases k
  {
    hide Bits, Join, Half, Odd;
    if k > 0 {
      HalfBelowPower(n, k);
      NumOfBits(n / 2, k - 1);
      BitsBelow(n / 2, k - 1);
      CapRange(k - 1);
      BitsStep(n);
      Joined(Bits(n / 2), n % 2 == 1);
    }
  }

  lemma BitsInjective(d: byte, e: byte)
    ensures Bits(d) == Bits(e) ==> d == e
  {
    hide Bits, Num, Pow;
    TwoToTheEight();
    NumOfBits(d, 8);
    NumOfBits(e, 8);
  }

  /** The difference of two inputs decides the difference of their checksums. */
  lemma ChecksumsDiffer(a: seq<byte>, b: seq<byte>)
    requires |a| == |b|
    ensures Xor(Checksum(a), Checksum(b)) == Spread(0, a, b)
  {
    hide Register, Spread, Xor;
    var c, d := Register(1, a), Register(1, b);
    RegistersDiffer(1, 1, a, b);
    XorSelf(1);
    XorSwap(c, 1, d, 1);
    XorZero(Xor(c, d));
  }

  /** Two inputs of one length have one checksum exactly when their difference spreads to nothing. */
  lemma SameChecksum(a: seq<byte>, b: seq<byte>)
    requires |a| == |b|
    ensures Checksum(a) == Checksum(b) <==> Spread(0, a, b) == 0
  {
    hide Checksum, Spread, Xor;
    ChecksumsDiffer(a, b);
    XorEqual(Checksum(a), Checksum(b));
  }

  lemma ZeroBelow()
    ensures 0 as word < REGISTER_LIMIT && Within(0, 0)
  {
  }

  lemma XorOfBytes(d: word, e: word)
    requires d < 256 && e < 256
    ensures Xor(d, e) < 256
  {
  }

  lemma {:induction false} SpreadStays(x: word, a: seq<byte>, b: seq<byte>)
    requires |a| == |b| && x < REGISTER_LIMIT
    ensures Spread(x, a, b) < REGISTER_LIMIT
    decreases |a|
  {
    hide Step, Bits, Xor;
    if a != [] {
      ByteBits(a[0]);
      ByteBits(b[0]);
      XorOfBytes(Bits(a[0]), Bits(b[0]));
      StepStays(x, Xor(Bits(a[0]), Bits(b[0])));
      SpreadStays(Step(x, Xor(Bits(a[0]), Bits(b[0]))), a[1..], b[1..]);
    }
  }

  /** What is equal in front and behind does not matter: the middle decides. */
  lemma MiddleDecides(p: seq<byte>, a: seq<byte>, b: seq<byte>, s: seq<byte>)
    requires |a| == |b|
    ensures Checksum(p + a + s) == Checksum(p + b + s) <==> Spread(0, a, b) == 0
  {
    hide Spread, Checksum;
    ZeroBelow();
    SameChecksum(p + a + s, p + b + s);
    SpreadConcat(0, p + a, p + b, s, s);
    SpreadConcat(0, p, p, a, b);
    SameInput(0, p);
    SpreadStays(0, a, b);
    SameInput(Spread(0, a, b), s);
  }

  /** Inputs of any one length that differ only within eight consecutive symbols never have the same checksum. */
  lemma BurstsAreDetected(p: seq<byte>, u: seq<byte>, v: seq<byte>, s: seq<byte>)
    requires |u| == |v| <= 8 && AllBelow(u, 32) && AllBelow(v, 32)
    ensures Checksum(p + u + s) == Checksum(p + v + s) <==> u == v
  {
    hide Spread, Checksum, Within;
    ZeroBelow();
    MiddleDecides(p, u, v, s);
    BurstSpreads(0, u, v, 0);
  }

  /** The same by positions: every error inside a window of eight symbols is seen. */
  lemma WindowsAreDetected(a: seq<byte>, b: seq<byte>, lo: nat)
    requires |a| == |b| && AllBelow(a, 32) && AllBelow(b, 32)
    requires forall i :: 0 <= i < |a| && !(lo <= i < lo + 8) ==> a[i] == b[i]
    ensures Checksum(a) == Checksum(b) <==> a == b
  {
    hide Checksum;
    var from := if lo < |a| then lo else |a|;
    var to := if lo + 8 < |a| then lo + 8 else |a|;
    var p, u, v, s := a[..from], a[from..to], b[from..to], a[to..];
    assert a == p + u + s;
    assert b == p + v + s;
    BurstsAreDetected(p, u, v, s);
  }

  // ------------------------------------------------------ nine symbols are one too many

  /** The first generator's multiple that spans nine symbols. */
  const CODEWORD: seq<byte> := [1, 19, 3, 25, 11, 25, 3, 19, 1]

  const NO_ERROR: seq<byte> := [0, 0, 0, 0, 0, 0, 0, 0, 0]

  lemma CodewordBits()
    ensures Bits(0) == 0 && Bits(1) == 1 && Bits(3) == 3 && Bits(11) == 11 && Bits(19) == 19 && Bits(25) == 25
  {
    assert Bits(1) == 1;
    assert Bits(2) == 2;
    assert Bits(3) == 3;
    assert Bits(4) == 4;
    assert Bits(5) == 5;
    assert Bits(6) == 6;
    assert Bits(9) == 9;
    assert Bits(12) == 12;
  }

  lemma CodewordSteps()
    ensures Step(0, 1) == 0x1 && Step(0x1, 19) == 0x33 && Step(0x33, 3) == 0x663 && Step(0x663, 25) == 0xcc79
    ensures Step(0xcc79, 11) == 0x19_8f2b && Step(0x19_8f2b, 25) == 0x331_e579 && Step(0x331_e579, 3) == 0x6_63ca_f23
    ensures Step(0x6_63ca_f23, 19) == 0xc_c795_e473 && Step(0xc_c795_e473, 1) == 0
  {
  }

  lemma OneSpread(x: word, d: byte, a: seq<byte>, b: seq<byte>)
    requires |a| == |b|
    ensures Spread(x, [d] + a, [0] + b) == Spread(Step(x, Bits(d)), a, b)
  {
    hide Step, Xor;
    NoBits();
    XorZero(Bits(d));
    assert ([d] + a)[1..] == a && ([0] + b)[1..] == b;
  }

  lemma {:induction false} CodewordVanishes()
    ensures Spread(0, CODEWORD, NO_ERROR) == 0
  {
    hide Step, Xor, Bits, Spread;
    CodewordBits();
    CodewordSteps();
    SpreadFrom(0, 0);
    SpreadFrom(0x1, 1);
    SpreadFrom(0x33, 2);
    SpreadFrom(0x663, 3);
    SpreadFrom(0xcc79, 4);
    SpreadFrom(0x19_8f2b, 5);
    SpreadFrom(0x331_e579, 6);
    SpreadFrom(0x6_63ca_f23, 7);
    SpreadFrom(0xc_c795_e473, 8);
    NothingLeft();
    assert CODEWORD[0..] == CODEWORD && NO_ERROR[0..] == NO_ERROR;
  }

  lemma NothingLeft()
    ensures Spread(0, CODEWORD[9..], NO_ERROR[9..]) == 0
  {
  }

  lemma SpreadFrom(x: word, i: nat)
    requires i < 9
    ensures Spread(x, CODEWORD[i..], NO_ERROR[i..]) == Spread(Step(x, Bits(CODEWORD[i])), CODEWORD[i + 1..], NO_ERROR[i + 1..])
  {
    hide Step, Xor, Bits, Spread;
    assert CODEWORD[i..] == [CODEWORD[i]] + CODEWORD[i + 1..];
    assert NO_ERROR[i..] == [0] + NO_ERROR[i + 1..];
    OneSpread(x, CODEWORD[i], CODEWORD[i + 1..], NO_ERROR[i + 1..]);
  }

  /** For every symbol there is one that differs from it by `y`. */
  function Partner(d: byte, y: byte): (e: byte)
    ensures e < 32
  {
    hide Bits;
    TwoToTheEight();
    NumBound(Xor(Bits(d), Bits(y)), 5);
    Num(Xor(Bits(d), Bits(y)), 5)
  }

  lemma {:induction false} NumBound(c: word, k: nat)
    ensures Num(c, k) < Pow(2, k)
    decreases k
  {
    hide Half, Odd;
    if k > 0 {
      NumBound(Half(c), k - 1);
    }
  }

  lemma JoinHalf(c: word)
    ensures Join(Half(c), Odd(c)) == c
  {
  }

  predicate Capped(w: word, k: nat)
    requires k <= 8
  {
    w < Cap(k)
  }

  lemma HalfCapped(w: word, k: nat)
    requires 0 < k <= 8 && Capped(w, k)
    ensures Capped(Half(w), k - 1)
  {
  }

  lemma NoneCapped(w: word)
    requires Capped(w, 0)
    ensures w == 0
  {
  }

  lemma NumStep(w: word, k: nat)
    requires k > 0
    ensures Num(w, k) / 2 == Num(Half(w), k - 1) && (Num(w, k) % 2 == 1 <==> Odd(w))
  {
    hide Half, Odd;
    Halved(Num(Half(w), k - 1), if Odd(w) then 1 else 0);
  }

  lemma NumOfNone(w: word)
    ensures Num(w, 0) == 0
  {
  }

  lemma {:induction false} BitsOfNum(w: word, k: nat)
    requires k <= 8 && Capped(w, k)
    ensures Bits(Num(w, k)) == w
    decreases k
  {
    hide Bits, Join, Half, Odd, Cap, Capped, Num;
    if k == 0 {
      NoBits();
      NoneCapped(w);
      NumOfNone(w);
    } else {
      HalfCapped(w, k);
      BitsOfNum(Half(w), k - 1);
      NumStep(w, k);
      BitsStep(Num(w, k));
      JoinHalf(w);
    }
  }

  lemma PartnerDiffers(d: byte, y: byte)
    requires d < 32 && y < 32
    ensures Xor(Bits(d), Bits(Partner(d, y))) == Bits(y)
  {
    hide Bits, Xor;
    ByteBits(d);
    ByteBits(y);
    XorBelow(Bits(d), Bits(y));
    BitsOfNum(Xor(Bits(d), Bits(y)), 5);
    XorAssoc(Bits(d), Bits(d), Bits(y));
    XorSelf(Bits(d));
    XorZero(Bits(y));
  }

  /** A difference spreads by itself, whatever it is a difference of. */
  lemma {:induction false} SpreadDepends(x: word, u: seq<byte>, v: seq<byte>, a: seq<byte>, b: seq<byte>)
    requires |u| == |v| == |a| == |b|
    requires forall i :: 0 <= i < |u| ==> Xor(Bits(u[i]), Bits(v[i])) == Xor(Bits(a[i]), Bits(b[i]))
    ensures Spread(x, u, v) == Spread(x, a, b)
    decreases |u|
  {
    hide Step, Bits, Xor;
    if u != [] {
      SpreadDepends(Step(x, Xor(Bits(u[0]), Bits(v[0]))), u[1..], v[1..], a[1..], b[1..]);
    }
  }

  /** Nine symbols with the codeword added. */
  function Changed(w: seq<byte>): (r: seq<byte>)
    requires |w| == 9
    ensures |r| == 9 && AllBelow(r, 32)
  {
    seq(9, i requires 0 <= i < 9 => Partner(w[i], CODEWORD[i]))
  }

  lemma ChangedAt(w: seq<byte>, i: nat)
    requires |w| == 9 && AllBelow(w, 32) && i < 9
    ensures Xor(Bits(w[i]), Bits(Changed(w)[i])) == Xor(Bits(CODEWORD[i]), Bits(NO_ERROR[i]))
  {
    hide Bits, Xor, Partner;
    NoBits();
    PartnerDiffers(w[i], CODEWORD[i]);
    XorZero(Bits(CODEWORD[i]));
  }

  lemma ChangedSpreads(w: seq<byte>)
    requires |w| == 9 && AllBelow(w, 32)
    ensures Spread(0, w, Changed(w)) == 0
  {
    hide Bits, Xor, Spread, Changed, CODEWORD, NO_ERROR;
    Nine();
    forall i | 0 <= i < 9
      ensures Xor(Bits(w[i]), Bits(Changed(w)[i])) == Xor(Bits(CODEWORD[i]), Bits(NO_ERROR[i]))
    {
      ChangedAt(w, i);
    }
    SpreadDepends(0, w, Changed(w), CODEWORD, NO_ERROR);
    CodewordVanishes();
  }

  lemma Nine()
    ensures |CODEWORD| == 9 == |NO_ERROR|
  {
  }

  lemma ChangedIsOther(w: seq<byte>)
    requires |w| == 9 && AllBelow(w, 32)
    ensures Changed(w) != w
  {
    hide Bits, Xor, Partner;
    CodewordBits();
    PartnerDiffers(w[0], CODEWORD[0]);
    XorSelf(Bits(w[0]));
  }

  /** The bound of eight is exact: any nine consecutive symbols of any input can be changed without changing the checksum. */
  lemma NineCanCollide(p: seq<byte>, w: seq<byte>, s: seq<byte>)
    requires |w| == 9 && AllBelow(w, 32)
    ensures AllBelow(Changed(w), 32) && Changed(w) != w && Checksum(p + w + s) == Checksum(p + Changed(w) + s)
  {
    hide Spread, Checksum, Changed;
    ChangedSpreads(w);
    ChangedIsOther(w);
    MiddleDecides(p, w, Changed(w), s);
  }
}
