/** Positional numbers, and the big-endian conversions of libdevcore/CommonData.h built on them. */
module Numbers {
  datatype Option<+T> = None | Some(value: T)

  /** uint8_t */
  type byte = x: int | 0 <= x < 256

  /** The number of size_t values on the 64-bit platforms the library targets. */
  const SIZE_T_COUNT: nat := 0x1_0000_0000_0000_0000

  /** The largest size of a std::vector<uint8_t>, PTRDIFF_MAX. */
  const MAX_VECTOR: nat := 0x7fff_ffff_ffff_ffff

  function Pow(b: nat, e: nat): (p: nat)
    ensures b > 0 ==> p > 0
  {
    if e == 0 then 1 else b * Pow(b, e - 1)
  }

  /** The number that the digits `s` write in base `b`, most significant digit first. */
  function Value(s: seq<nat>, b: nat): nat {
    if s == [] then 0 else Value(s[..|s| - 1], b) * b + s[|s| - 1]
  }

  /** Quotient by repeated subtraction, which spares the solver division by a variable. */
  function Quot(n: nat, b: nat): nat
    requires b > 0
  {
    if n < b then 0 else 1 + Quot(n - b, b)
  }

  /** The remainder that goes with `Quot`. */
  function Rem(n: nat, b: nat): (r: nat)
    requires b > 0
    ensures r < b
  {
    if n < b then n else Rem(n - b, b)
  }

  /** The `k` least significant digits of `n` in base `b`, most significant first. */
  function Digits(n: nat, k: nat, b: nat): (r: seq<nat>)
    requires b > 0
    ensures |r| == k
    decreases k
  {
    if k == 0 then [] else Digits(Quot(n, b), k - 1, b) + [Rem(n, b)]
  }

  ghost predicate AllBelow(s: seq<nat>, b: nat) {
    forall i :: 0 <= i < |s| ==> s[i] < b
  }

  lemma {:induction false} QuotRem(n: nat, b: nat)
    requires b > 0
    ensures n == Quot(n, b) * b + Rem(n, b)
  {
    if n >= b {
      QuotRem(n - b, b);
    }
  }

  lemma {:induction false} QuotUnique(q: nat, r: nat, b: nat)
    requires r < b
    ensures Quot(q * b + r, b) == q && Rem(q * b + r, b) == r
  {
    if q > 0 {
      QuotUnique(q - 1, r, b);
      assert q * b + r - b == (q - 1) * b + r;
      assert q * b + r >= b by { MulMonotone(1, q, b); }
    }
  }

  lemma QuotLiteral(n: nat)
    ensures Quot(n, 256) == n / 256 && Rem(n, 256) == n % 256
  {
    QuotUnique(n / 256, n % 256, 256);
  }

  lemma MulMonotone(x: nat, y: nat, b: nat)
    requires x <= y
    ensures x * b <= y * b
  {
  }

  lemma {:induction false} PowAdd(b: nat, m: nat, n: nat)
    ensures Pow(b, m + n) == Pow(b, m) * Pow(b, n)
  {
    if m > 0 {
      PowAdd(b, m - 1, n);
      assert Pow(b, m + n) == b * Pow(b, (m - 1) + n);
      MulAssoc(b, Pow(b, m - 1), Pow(b, n));
    }
  }

  lemma {:induction false} PowMonotone(b: nat, m: nat, n: nat)
    requires b > 0 && m <= n
    ensures Pow(b, m) <= Pow(b, n)
  {
    if m < n {
      PowMonotone(b, m, n - 1);
      MulMonotone(1, b, Pow(b, n - 1));
    }
  }

  /** One byte is eight bits. */
  lemma {:induction false} BytesAreBits(k: nat)
    ensures Pow(256, k) == Pow(2, 8 * k)
  {
    if k > 0 {
      BytesAreBits(k - 1);
      PowAdd(2, 8, 8 * (k - 1));
      TwoToTheEight();
    }
  }

  lemma TwoToTheEight()
    ensures Pow(2, 5) == 32 && Pow(2, 8) == 256
  {
    assert Pow(2, 2) == 4;
    PowAdd(2, 2, 2);
    PowAdd(2, 4, 4);
    PowAdd(2, 4, 1);
  }

  lemma PowEight()
    ensures Pow(256, 8) == SIZE_T_COUNT
  {
    assert Pow(256, 2) == 0x1_0000;
    PowAdd(256, 2, 2);
    PowAdd(256, 4, 4);
  }

  lemma MulAssoc(x: int, y: int, z: int)
    ensures x * (y * z) == (x * y) * z
  {
  }

  lemma {:induction false} DigitsBelow(n: nat, k: nat, b: nat)
    requires b > 0
    ensures AllBelow(Digits(n, k, b), b)
    decreases k
  {
    if k > 0 {
      DigitsBelow(Quot(n, b), k - 1, b);
    }
  }

  lemma {:induction false} ValueBound(s: seq<nat>, b: nat)
    requires AllBelow(s, b)
    ensures Value(s, b) < Pow(b, |s|)
  {
    if s != [] {
      var init, last := s[..|s| - 1], s[|s| - 1];
      ValueBound(init, b);
      BoundStep(Value(init, b), last, Pow(b, |init|), b);
    }
  }

  lemma BoundStep(v: nat, last: nat, p: nat, b: nat)
    requires v < p && last < b
    ensures v * b + last < b * p
  {
    MulMonotone(v + 1, p, b);
    assert (v + 1) * b == v * b + b;
  }

  /** Writing out the digits of a value gives the digits back. */
  lemma {:induction false} DigitsOfValue(s: seq<nat>, b: nat)
    requires b > 0 && AllBelow(s, b)
    ensures Digits(Value(s, b), |s|, b) == s
  {
    if s != [] {
      var init := s[..|s| - 1];
      QuotUnique(Value(init, b), s[|s| - 1], b);
      DigitsOfValue(init, b);
      assert s == init + [s[|s| - 1]];
    }
  }

  /** Reading the digits of a number gives the number back, when they have room for it. */
  lemma {:induction false} ValueOfDigits(n: nat, k: nat, b: nat)
    requires b > 0 && n < Pow(b, k)
    ensures Value(Digits(n, k, b), b) == n
    decreases k
  {
    if k > 0 {
      var q := Quot(n, b);
      QuotRem(n, b);
      if q >= Pow(b, k - 1) {
        MulMonotone(Pow(b, k - 1), q, b);
      }
      ValueOfDigits(q, k - 1, b);
      var d := Digits(n, k, b);
      assert d[..|d| - 1] == Digits(q, k - 1, b);
    }
  }

  /** Multiples of b^k do not show in the last `k` digits. */
  lemma {:induction false} LastDigits(q: nat, m: nat, k: nat, b: nat)
    requires b > 0
    ensures Digits(q * Pow(b, k) + m, k, b) == Digits(m, k, b)
    decreases k
  {
    hide Quot, Rem;
    if k > 0 {
      var p := q * Pow(b, k - 1);
      MulAssoc(q, Pow(b, k - 1), b);
      QuotRem(m, b);
      Distribute(q, Pow(b, k - 1), Quot(m, b), b);
      QuotUnique(p + Quot(m, b), Rem(m, b), b);
      LastDigits(q, Quot(m, b), k - 1, b);
    }
  }

  lemma Distribute(v: int, p: int, w: int, b: int)
    ensures (v * p + w) * b == v * (b * p) + w * b
  {
    assert (v * p) * b == v * (b * p);
  }

  lemma {:induction false} ValueConcat(s: seq<nat>, t: seq<nat>, b: nat)
    ensures Value(s + t, b) == Value(s, b) * Pow(b, |t|) + Value(t, b)
  {
    if t == [] {
      assert s + t == s;
    } else {
      var init, last := t[..|t| - 1], t[|t| - 1];
      assert (s + t)[..|s + t| - 1] == s + init;
      ValueConcat(s, init, b);
      Distribute(Value(s, b), Pow(b, |init|), Value(init, b), b);
    }
  }

  /** Digits of equal length with equal values are the same digits. */
  lemma ValueInjective(s: seq<nat>, t: seq<nat>, b: nat)
    requires b > 0 && AllBelow(s, b) && AllBelow(t, b)
    requires |s| == |t| && Value(s, b) == Value(t, b)
    ensures s == t
  {
    DigitsOfValue(s, b);
    DigitsOfValue(t, b);
  }

  /** `x | y` on unsigned numbers. */
  function Or(x: nat, y: nat): nat
    decreases x + y
  {
    if x == 0 then y
    else if y == 0 then x
    else 2 * Or(x / 2, y / 2) + (if x % 2 == 1 || y % 2 == 1 then 1 else 0)
  }

  lemma OrBits(x: nat, y: nat, x': nat, y': nat)
    requires x > 0 && y > 0 && x' == x / 2 && y' == y / 2
    ensures Or(x, y) == 2 * Or(x', y') + (if x % 2 == 1 || y % 2 == 1 then 1 else 0)
  {
  }

  lemma Halved(h: nat, bit: nat)
    requires bit <= 1
    ensures (2 * h + bit) / 2 == h && (2 * h + bit) % 2 == bit
  {
  }

  /** The last bit, when that of `2 * y` is clear. */
  lemma OrEven(y: nat, h: nat, bit: nat)
    requires bit <= 1
    ensures Or(2 * y, 2 * h + bit) == 2 * Or(y, h) + bit
  {
    hide Or;
    OrNothing(2 * h + bit);
    OrNothing(h);
    OrNothing(y);
    OrNothing(2 * y);
    if y > 0 && 2 * h + bit > 0 {
      Halved(y, 0);
      Halved(h, bit);
      OrBits(2 * y, 2 * h + bit, y, h);
    }
  }

  lemma TwicePower(x: nat, k: nat)
    requires k > 0
    ensures x * Pow(2, k) == 2 * (x * Pow(2, k - 1))
  {
    MulAssoc(x, 2, Pow(2, k - 1));
    MulAssoc(2, x, Pow(2, k - 1));
  }

  lemma HalfBelowPower(d: nat, k: nat)
    requires k > 0 && d < Pow(2, k)
    ensures d / 2 < Pow(2, k - 1)
  {
  }

  /** What lies above the last `k` bits is or-ed by itself, when those of the first number are clear. */
  lemma {:induction false} OrAbove(x: nat, k: nat, h: nat, d: nat)
    requires d < Pow(2, k)
    ensures Or(x * Pow(2, k), h * Pow(2, k) + d) == Or(x, h) * Pow(2, k) + d
    decreases k
  {
    hide Pow, Or;
    if k == 0 {
      NoPower();
    } else {
      var y, z := x * Pow(2, k - 1), h * Pow(2, k - 1);
      TwicePower(x, k);
      TwicePower(h, k);
      TwicePower(Or(x, h), k);
      HalfBelowPower(d, k);
      OrAbove(x, k - 1, h, d / 2);
      OrEven(y, z + d / 2, d % 2);
    }
  }

  lemma OrDisjoint(x: nat, k: nat, d: nat)
    requires d < Pow(2, k)
    ensures Or(x * Pow(2, k), d) == x * Pow(2, k) + d
  {
    hide Pow, Or;
    OrAbove(x, k, 0, d);
    OrNothing(x);
  }

  lemma {:induction false} OrAtMostSum(x: nat, y: nat)
    ensures Or(x, y) <= x + y
    decreases x + y
  {
    if x > 0 && y > 0 {
      OrAtMostSum(x / 2, y / 2);
    }
  }

  lemma NoPower()
    ensures Pow(2, 0) == 1
  {
  }

  lemma OrNothing(x: nat)
    ensures Or(x, 0) == x && Or(0, x) == x
  {
  }

  // ---------------------------------------------------------------- base 256

  /** The number a big-endian byte string denotes. */
  function FromBytes(s: seq<byte>): nat {
    Value(s, 256)
  }

  /** The `k` low-order bytes of `n`, big-endian. */
  function ToBytes(n: nat, k: nat): (r: seq<byte>)
    ensures |r| == k
  {
    DigitsBelow(n, k, 256);
    Digits(n, k, 256)
  }

  /** Zeros in front change nothing. */
  lemma {:induction false} LeadingZeros(k: nat, s: seq<byte>)
    ensures FromBytes(seq(k, _ => 0) + s) == FromBytes(s)
  {
    var z: seq<byte> := seq(k, _ => 0);
    if k == 0 {
      assert z + s == s;
    } else {
      LeadingZeros(k - 1, s);
      assert z + s == [0] + (seq(k - 1, _ => 0) + s);
      ValueConcat([0], seq(k - 1, _ => 0) + s, 256);
      assert Value([0], 256) == 0;
    }
  }

  /** How many bytes `n` needs: the number of shifts by 8 that bring it to zero. */
  function ByteLength(n: nat): nat {
    if n == 0 then 0 else 1 + ByteLength(n / 256)
  }

  /** The shortest big-endian representation of `n`. */
  function MinBytes(n: nat): (r: seq<byte>)
    ensures |r| == ByteLength(n)
  {
    ToBytes(n, ByteLength(n))
  }

  lemma ByteLengthFits(n: nat)
    ensures n < Pow(256, ByteLength(n))
  {
  }

  /** `n` fits in `k` bytes exactly when its byte length is at most `k`. */
  lemma {:induction false} ByteLengthAtMost(n: nat, k: nat)
    ensures n < Pow(256, k) <==> ByteLength(n) <= k
  {
    if n == 0 {
    } else if k > 0 {
      ByteLengthAtMost(n / 256, k - 1);
    }
  }

  lemma MinBytesValue(n: nat)
    ensures FromBytes(MinBytes(n)) == n
  {
    ByteLengthFits(n);
    ValueOfDigits(n, ByteLength(n), 256);
  }

  /** The shortest representation has no leading zero byte. */
  lemma {:induction false} MinBytesLeading(n: nat)
    ensures n > 0 ==> |MinBytes(n)| > 0 && MinBytes(n)[0] != 0
  {
    if n >= 256 {
      MinBytesLeading(n / 256);
      QuotLiteral(n);
      assert MinBytes(n) == MinBytes(n / 256) + [n % 256];
    } else if n > 0 {
      assert ByteLength(n / 256) == 0;
      assert MinBytes(n) == [n];
    }
  }

  /** A byte string without a leading zero is the shortest representation of its value, and conversely. */
  lemma {:induction false} MinBytesOfValue(s: seq<byte>)
    ensures MinBytes(FromBytes(s)) == s <==> s == [] || s[0] != 0
  {
    var n := FromBytes(s);
    if s == [] {
    } else if s[0] == 0 {
      if n > 0 {
        MinBytesLeading(n);
      }
    } else {
      LeadingDigit(s);
      ValueBound(s, 256);
      ByteLengthAtMost(n, |s|);
      ByteLengthAtMost(n, |s| - 1);
      DigitsOfValue(s, 256);
    }
  }

  /** The first byte of a number counts most. */
  lemma HighByteFirst(b: byte, s: seq<byte>)
    ensures FromBytes([b] + s) == b * Pow(256, |s|) + FromBytes(s)
  {
    hide Pow;
    ValueConcat([b], s, 256);
    OneDigit(b, 256);
  }

  lemma OneDigit(d: nat, b: nat)
    ensures Value([d], b) == d
  {
    assert [d][..0] == [];
    assert Value([], b) * b == 0;
  }

  lemma LeadingDigit(s: seq<byte>)
    requires s != [] && s[0] != 0
    ensures FromBytes(s) >= Pow(256, |s| - 1)
  {
    assert s == s[..1] + s[1..];
    ValueConcat(s[..1], s[1..], 256);
    assert Value(s[..1], 256) == s[0] by { assert s[..1][..0] == []; }
    MulMonotone(1, s[0], Pow(256, |s| - 1));
  }

  /** The loop of `bytesRequired`. */
  method BytesRequired(n: nat) returns (i: nat)
    ensures i == ByteLength(n)
  {
    i := 0;
    var v := n;
    while v != 0
      invariant i + ByteLength(v) == ByteLength(n)
      decreases v
    {
      v := v / 256;
      i := i + 1;
    }
  }

  /** `toBigEndian` into a collection of fixed size: it overwrites all of it, from the back. */
  method ToBigEndian(val: nat, out: array<byte>)
    modifies out
    ensures out[..] == ToBytes(val, out.Length)
  {
    var v := val;
    var i := out.Length;
    assert out[i..] == [];
    while i != 0
      invariant 0 <= i <= out.Length
      invariant ToBytes(val, out.Length) == ToBytes(v, i) + out[i..]
    {
      ghost var tail := out[i..];
      out[i - 1] := v % 256;
      QuotLiteral(v);
      v := v / 256;
      i := i - 1;
      assert out[i..] == [out[i]] + tail;
    }
    assert out[0..] == out[..];
  }

  /** `fromBigEndian`: the fold over the bytes. */
  method FromBigEndian(s: seq<byte>) returns (ret: nat)
    ensures ret == FromBytes(s)
  {
    ret := 0;
    for i := 0 to |s|
      invariant ret == FromBytes(s[..i])
    {
      assert s[..i + 1][..i] == s[..i];
      ret := ret * 256 + s[i];
    }
    assert s[..|s|] == s;
  }

  /** `toCompactBigEndian`: as many bytes as needed, and at least `min`. */
  method ToCompactBigEndian(val: nat, min: nat) returns (ret: array<byte>)
    ensures fresh(ret)
    ensures ret[..] == ToBytes(val, if ByteLength(val) < min then min else ByteLength(val))
  {
    var i := BytesRequired(val);
    ret := new byte[if i < min then min else i](_ => 0);
    ToBigEndian(val, ret);
  }

  lemma Associative<T>(a: seq<T>, b: seq<T>, c: seq<T>)
    ensures a + (b + c) == (a + b) + c
  {
  }
}
