/** convert: regrouping symbols of one bit width into another (libcfxcore/types/cfxaddress/lib.cpp). */
module Cip37Convert {
  import opened Numbers

  /** The number of bits in `n` symbols. */
  function BitCount(n: nat, bits: nat): nat {
    n * bits
  }

  /** The number of symbols that come out: a started symbol is completed with zeros only when symbols get narrower. */
  function Count(n: nat, inbits: nat, outbits: nat): nat
    requires outbits > 0
  {
    if inbits > outbits then Quot(BitCount(n, inbits) + outbits - 1, outbits) else Quot(BitCount(n, inbits), outbits)
  }

  /** The leading `target` bits of a number of `bits` bits, completed with zero bits where `target` is the larger. */
  function Fitted(value: nat, bits: nat, target: nat): nat {
    if target >= bits then value * Pow(2, target - bits) else Quot(value, Pow(2, bits - target))
  }

  /** The same bits, `outbits` at a time: zeros are added at the end, or what does not fill a symbol is cut off. */
  function Regroup(data: seq<nat>, inbits: nat, outbits: nat): (r: seq<nat>)
    requires outbits > 0
    ensures |r| == Count(|data|, inbits, outbits)
  {
    var k := Count(|data|, inbits, outbits);
    Digits(Fitted(Value(data, Pow(2, inbits)), BitCount(|data|, inbits), BitCount(k, outbits)), k, Pow(2, outbits))
  }

  lemma RegroupBelow(data: seq<nat>, inbits: nat, outbits: nat)
    requires outbits > 0
    ensures AllBelow(Regroup(data, inbits, outbits), Pow(2, outbits))
  {
    hide Fitted, Digits, Value, Count;
    var k := Count(|data|, inbits, outbits);
    DigitsBelow(Fitted(Value(data, Pow(2, inbits)), BitCount(|data|, inbits), BitCount(k, outbits)), k, Pow(2, outbits));
  }

  // ---------------------------------------------------------------- arithmetic

  lemma CeilUnique(k: nat, gap: nat, outbits: nat)
    requires gap < outbits
    ensures Quot(k * outbits - gap + outbits - 1, outbits) == k
  {
    QuotUnique(k, outbits - 1 - gap, outbits);
  }

  /** Moving the top `outbits` of `accBits` bits over to the finished symbols changes nothing of the number. */
  lemma MoveSymbol(done: nat, acc: nat, outbits: nat, left: nat)
    requires acc < Pow(2, left + outbits)
    ensures var val, rest := Quot(acc, Pow(2, left)), Rem(acc, Pow(2, left));
            && val < Pow(2, outbits)
            && (done * Pow(2, outbits) + val) * Pow(2, left) + rest == done * Pow(2, left + outbits) + acc
  {
    hide Pow, Quot, Rem;
    var p := Pow(2, left);
    var val, rest := Quot(acc, p), Rem(acc, p);
    QuotRem(acc, p);
    PowAdd(2, outbits, left);
    if val >= Pow(2, outbits) {
      MulMonotone(Pow(2, outbits), val, p);
    }
    Nest(done, Pow(2, outbits), val, p);
  }

  lemma Nest(x: int, y: int, z: int, p: int)
    ensures (x * y + z) * p == x * (y * p) + z * p
  {
    MulAssoc(x, y, p);
  }

  /** Appending `inbits` bits to the accumulator appends them to the number. */
  lemma TakeSymbol(done: nat, acc: nat, accBits: nat, inbits: nat, d: nat)
    requires acc < Pow(2, accBits) && d < Pow(2, inbits)
    ensures acc * Pow(2, inbits) + d < Pow(2, accBits + inbits)
    ensures done * Pow(2, accBits + inbits) + (acc * Pow(2, inbits) + d)
         == (done * Pow(2, accBits) + acc) * Pow(2, inbits) + d
  {
    hide Pow;
    PowAdd(2, accBits, inbits);
    var p := Pow(2, inbits);
    MulMonotone(acc + 1, Pow(2, accBits), p);
    Nest(1, acc, 1, p);
    Nest(done, Pow(2, accBits), acc, p);
  }

  // ------------------------------------------------------------------- the method

  ghost predicate Symbols(data: seq<byte>, inbits: nat) {
    AllBelow(data, Pow(2, inbits))
  }

  /** What the loops keep: symbols done and bits pending make up the number read so far. */
  ghost predicate Pending(read: seq<byte>, inbits: nat, ret: seq<byte>, outbits: nat, acc: nat, accBits: nat) {
    && acc < Pow(2, accBits) && AllBelow(ret, Pow(2, outbits))
    && Value(ret, Pow(2, outbits)) * Pow(2, accBits) + acc == Value(read, Pow(2, inbits))
  }

  lemma SmallPowers(k: nat)
    requires k <= 16
    ensures Pow(2, k) <= 0x1_0000 && (k <= 8 ==> Pow(2, k) <= 256)
  {
    PowMonotone(2, k, 16);
    TwoToTheEight();
    PowAdd(2, 8, 8);
    if k <= 8 {
      PowMonotone(2, k, 8);
    }
  }

  lemma ValueSnoc(s: seq<nat>, d: nat, b: nat)
    ensures Value(s + [d], b) == Value(s, b) * b + d
  {
    assert (s + [d])[..|s|] == s;
  }

  lemma Taken(read: seq<byte>, d: byte, inbits: nat, ret: seq<byte>, outbits: nat, acc: nat, accBits: nat)
    requires Pending(read, inbits, ret, outbits, acc, accBits) && d < Pow(2, inbits)
    ensures Pending(read + [d], inbits, ret, outbits, acc * Pow(2, inbits) + d, accBits + inbits)
  {
    hide Value, Pow;
    TakeSymbol(Value(ret, Pow(2, outbits)), acc, accBits, inbits, d);
    ValueSnoc(read, d, Pow(2, inbits));
  }

  lemma Moved(read: seq<byte>, inbits: nat, ret: seq<byte>, outbits: nat, acc: nat, left: nat)
    requires Pending(read, inbits, ret, outbits, acc, left + outbits) && 0 < outbits <= 8
    ensures var val := Quot(acc, Pow(2, left));
            val < 256 && Pending(read, inbits, ret + [val], outbits, Rem(acc, Pow(2, left)), left)
  {
    hide Value, Pow, Quot, Rem;
    var val := Quot(acc, Pow(2, left));
    MoveSymbol(Value(ret, Pow(2, outbits)), acc, outbits, left);
    SmallPowers(outbits);
    ValueSnoc(ret, val, Pow(2, outbits));
  }

  /** The three variables of the loops: `ret`, `acc` and `accBits`. */
  datatype Work = Work(ret: seq<byte>, acc: nat, accBits: nat)

  /** The inner loop: push whole symbols, cut down to a byte, from the top of the accumulator. */
  function Drained(w: Work, outbits: nat): (r: Work)
    requires outbits > 0
    decreases w.accBits
  {
    if w.accBits < outbits then w
    else
      var left := w.accBits - outbits;
      Drained(Work(w.ret + [Rem(Quot(w.acc, Pow(2, left)), 256)], Rem(w.acc, Pow(2, left)), left), outbits)
  }

  /** `acc = acc << inbits | d`, in 16 bits. */
  function Taking(w: Work, d: byte, inbits: nat): Work {
    Work(w.ret, Rem(Or(w.acc * Pow(2, inbits), d), 0x1_0000), w.accBits + inbits)
  }

  /** The outer loop. */
  function Absorbed(data: seq<byte>, inbits: nat, outbits: nat): Work
    requires outbits > 0
  {
    if data == [] then Work([], 0, 0)
    else Drained(Taking(Absorbed(data[..|data| - 1], inbits, outbits), data[|data| - 1], inbits), outbits)
  }

  /** `convert`, on any bytes. */
  function Converted(data: seq<byte>, inbits: nat, outbits: nat): seq<byte>
    requires outbits > 0
  {
    if inbits > 8 || outbits > 8 then []
    else
      var w := Absorbed(data, inbits, outbits);
      if 0 < w.accBits < outbits && inbits > outbits then w.ret + [Rem(w.acc * Pow(2, outbits - w.accBits), 256)] else w.ret
  }

  method Drain(w: Work, outbits: nat) returns (r: Work)
    requires outbits > 0
    ensures r == Drained(w, outbits)
  {
    var ret: seq<byte>, acc: nat, accBits: nat := w.ret, w.acc, w.accBits;
    while accBits >= outbits
      invariant Drained(Work(ret, acc, accBits), outbits) == Drained(w, outbits)
      decreases accBits
    {
      hide Pow, Quot, Rem;
      var val := Rem(Quot(acc, Pow(2, accBits - outbits)), 256);
      ret := ret + [val];
      acc := Rem(acc, Pow(2, accBits - outbits));
      accBits := accBits - outbits;
    }
    return Work(ret, acc, accBits);
  }

  /** `convert`. It does not end for `outbits` zero. */
  method Convert(data: seq<byte>, inbits: nat, outbits: nat) returns (ret: seq<byte>)
    requires outbits > 0
    ensures ret == Converted(data, inbits, outbits)
    ensures inbits > 8 || outbits > 8 ==> ret == []
    ensures inbits <= 8 && outbits <= 8 ==> |ret| == Count(|data|, inbits, outbits)
    ensures inbits <= 8 && outbits <= 8 && Symbols(data, inbits) ==> ret == Regroup(data, inbits, outbits)
  {
    hide Drained, Taking, Pow, Rem, Regroup, Count, Symbols;
    if inbits > 8 || outbits > 8 {
      return [];
    }
    var w := Work([], 0, 0);
    for i := 0 to |data|
      invariant w == Absorbed(data[..i], inbits, outbits)
    {
      assert data[..i + 1][..i] == data[..i];
      w := Drain(Taking(w, data[i], inbits), outbits);
    }
    assert data[..|data|] == data;
    ConvertedCount(data, inbits, outbits);
    if Symbols(data, inbits) {
      ConvertedIsRegroup(data, inbits, outbits);
    }
    ret := w.ret;
    AbsorbedBits(data, inbits, outbits);
    if w.accBits > 0 && inbits > outbits {
      ret := ret + [Rem(w.acc * Pow(2, outbits - w.accBits), 256)];
    }
  }

  // ------------------------------------------------------------ what the loops keep

  lemma {:induction false} DrainedBits(w: Work, outbits: nat)
    requires outbits > 0
    ensures var r := Drained(w, outbits);
            r.accBits < outbits && BitCount(|r.ret|, outbits) + r.accBits == BitCount(|w.ret|, outbits) + w.accBits
    decreases w.accBits
  {
    hide Pow, Quot, Rem, BitCount;
    if w.accBits >= outbits {
      var left := w.accBits - outbits;
      OneMore(|w.ret|, outbits);
      DrainedBits(Work(w.ret + [Rem(Quot(w.acc, Pow(2, left)), 256)], Rem(w.acc, Pow(2, left)), left), outbits);
    }
  }

  /** No bit is lost: the bits of the symbols that came out and the pending ones are as many as came in. */
  lemma {:induction false} AbsorbedBits(data: seq<byte>, inbits: nat, outbits: nat)
    requires outbits > 0
    ensures var w := Absorbed(data, inbits, outbits);
            w.accBits < outbits && BitCount(|w.ret|, outbits) + w.accBits == BitCount(|data|, inbits)
  {
    hide Drained, Pow, Rem, Or, BitCount;
    if data == [] {
      NoBitsAtAll(inbits, outbits);
    } else {
      var init := data[..|data| - 1];
      AbsorbedBits(init, inbits, outbits);
      OneMore(|init|, inbits);
      DrainedBits(Taking(Absorbed(init, inbits, outbits), data[|data| - 1], inbits), outbits);
    }
  }

  lemma NoBitsAtAll(inbits: nat, outbits: nat)
    ensures BitCount(0, outbits) == 0 == BitCount(0, inbits)
  {
  }

  lemma {:induction false} DrainedPending(read: seq<byte>, inbits: nat, w: Work, outbits: nat)
    requires 0 < outbits <= 8 && Pending(read, inbits, w.ret, outbits, w.acc, w.accBits)
    ensures var r := Drained(w, outbits); Pending(read, inbits, r.ret, outbits, r.acc, r.accBits)
    decreases w.accBits
  {
    hide Pow, Quot, Rem, Pending;
    if w.accBits >= outbits {
      var left := w.accBits - outbits;
      var val := Quot(w.acc, Pow(2, left));
      Moved(read, inbits, w.ret, outbits, w.acc, left);
      SmallRem(val, 256);
      DrainedPending(read, inbits, Work(w.ret + [val], Rem(w.acc, Pow(2, left)), left), outbits);
    }
  }

  lemma SmallRem(n: nat, b: nat)
    requires n < b
    ensures Rem(n, b) == n
  {
    QuotUnique(0, n, b);
  }

  lemma TakingIs(w: Work, d: byte, inbits: nat)
    requires inbits <= 8 && w.accBits < 8 && w.acc < Pow(2, w.accBits) && d < Pow(2, inbits)
    ensures Taking(w, d, inbits) == Work(w.ret, w.acc * Pow(2, inbits) + d, w.accBits + inbits)
  {
    hide Pow, Or, Rem;
    OrDisjoint(w.acc, inbits, d);
    TakeSymbol(0, w.acc, w.accBits, inbits, d);
    SmallPowers(w.accBits + inbits);
    SmallRem(w.acc * Pow(2, inbits) + d, 0x1_0000);
  }

  /** The 16 bits of the accumulator hold all that is pending, for all widths up to 8. */
  lemma {:induction false} AbsorbedPending(data: seq<byte>, inbits: nat, outbits: nat)
    requires inbits <= 8 && 0 < outbits <= 8 && Symbols(data, inbits)
    ensures var w := Absorbed(data, inbits, outbits); Pending(data, inbits, w.ret, outbits, w.acc, w.accBits)
  {
    hide Drained, Pow, Taking;
    if data == [] {
      NoPower();
    } else {
      hide Value;
      var init, d := data[..|data| - 1], data[|data| - 1];
      AbsorbedPending(init, inbits, outbits);
      AbsorbedBits(init, inbits, outbits);
      var w := Absorbed(init, inbits, outbits);
      Taken(init, d, inbits, w.ret, outbits, w.acc, w.accBits);
      TakingIs(w, d, inbits);
      assert init + [d] == data;
      DrainedPending(data, inbits, Taking(w, d, inbits), outbits);
    }
  }

  lemma ConvertedCount(data: seq<byte>, inbits: nat, outbits: nat)
    requires inbits <= 8 && 0 < outbits <= 8
    ensures |Converted(data, inbits, outbits)| == Count(|data|, inbits, outbits)
  {
    hide Absorbed, Pow, Rem, Count, BitCount;
    AbsorbedBits(data, inbits, outbits);
    var w := Absorbed(data, inbits, outbits);
    if w.accBits > 0 && inbits > outbits {
      CountCompleted(|data|, inbits, outbits, |w.ret|, w.accBits);
    } else {
      CountCutOff(|data|, inbits, outbits, |w.ret|, w.accBits);
    }
  }

  /** On symbols of the input width the same bits come out, regrouped. */
  lemma ConvertedIsRegroup(data: seq<byte>, inbits: nat, outbits: nat)
    requires inbits <= 8 && 0 < outbits <= 8 && Symbols(data, inbits)
    ensures Converted(data, inbits, outbits) == Regroup(data, inbits, outbits)
  {
    hide Absorbed, Pow, Rem, Regroup, BitCount, Pending;
    AbsorbedBits(data, inbits, outbits);
    AbsorbedPending(data, inbits, outbits);
    var w := Absorbed(data, inbits, outbits);
    if w.accBits > 0 && inbits > outbits {
      Completed(data, inbits, w.ret, outbits, w.acc, w.accBits);
    } else {
      CutOff(data, inbits, w.ret, outbits, w.acc, w.accBits);
    }
  }

  /** The low bits of a symbol, and those above them. */
  function Low(d: byte, inbits: nat): (r: byte)
    ensures r <= d
  {
    QuotRem(d, Pow(2, inbits));
    Rem(d, Pow(2, inbits))
  }

  function High(d: byte, inbits: nat): nat {
    Quot(d, Pow(2, inbits))
  }

  /** The accumulator with the high bits or-ed in and the low ones behind. */
  function Accumulated(acc: nat, high: nat, low: nat, inbits: nat): nat {
    MulNotNegative(Or(acc, high), Pow(2, inbits));
    Or(acc, high) * Pow(2, inbits) + low
  }

  lemma MulNotNegative(x: nat, y: nat)
    ensures x * y >= 0
  {
  }

  /** One turn on a symbol wider than the input width: its low bits are taken, and the bits above them are or-ed into the pending
      ones. So it is taken like its low bits exactly when the bits above are already pending. */
  lemma WideSymbolTaken(w: Work, d: byte, inbits: nat)
    requires inbits <= 8 && w.accBits < 8 && w.acc < Pow(2, w.accBits)
    ensures Taking(w, d, inbits) == Work(w.ret, Accumulated(w.acc, High(d, inbits), Low(d, inbits), inbits), w.accBits + inbits)
    ensures Taking(w, d, inbits) == Taking(w, Low(d, inbits), inbits) <==> Or(w.acc, High(d, inbits)) == w.acc
  {
    hide Pow, Or, Rem, Quot;
    var p, low, high := Pow(2, inbits), Low(d, inbits), High(d, inbits);
    QuotRem(d, p);
    OrAbove(w.acc, inbits, high, low);
    OrDisjoint(w.acc, inbits, low);
    AccumulatorHolds(w.acc, w.accBits, inbits, d);
    AccumulatorHolds(w.acc, w.accBits, inbits, low);
    SmallRem(Or(w.acc, high) * p + low, 0x1_0000);
    SmallRem(w.acc * p + low, 0x1_0000);
    SameSum(Or(w.acc, high), w.acc, p, low);
  }

  lemma AccumulatorHolds(acc: nat, accBits: nat, inbits: nat, d: byte)
    requires inbits <= 8 && accBits < 8 && acc < Pow(2, accBits)
    ensures Or(acc * Pow(2, inbits), d) < 0x1_0000
  {
    hide Pow, Or;
    SmallPowers(inbits);
    PowMonotone(2, accBits, 7);
    TwoToTheSeven();
    MulMonotone(acc, 127, Pow(2, inbits));
    OrAtMostSum(acc * Pow(2, inbits), d);
  }

  lemma TwoToTheSeven()
    ensures Pow(2, 7) == 128
  {
    assert Pow(2, 3) == 8;
    PowAdd(2, 3, 4);
    assert Pow(2, 4) == 16;
  }

  lemma SameSum(x: nat, y: nat, p: nat, low: nat)
    requires p > 0
    ensures x * p + low == y * p + low <==> x == y
  {
    if x < y {
      StrictMonotone(x, y, p);
    } else if y < x {
      StrictMonotone(y, x, p);
    }
  }

  /** For equal widths nothing happens, to wide symbols either: they come out wide exactly where they went in wide. */
  lemma {:induction false} SameWidthIsIdentity(data: seq<byte>, bits: nat)
    requires 0 < bits <= 8
    ensures Absorbed(data, bits, bits) == Work(data, 0, 0) && Converted(data, bits, bits) == data
    decreases |data|
  {
    hide Or, Quot, Rem, Pow;
    if data != [] {
      var init, d := data[..|data| - 1], data[|data| - 1];
      SameWidthIsIdentity(init, bits);
      assert init + [d] == data;
      OneSymbol(init, d, bits);
    }
  }

  lemma OneSymbol(ret: seq<byte>, d: byte, bits: nat)
    requires 0 < bits <= 8
    ensures Drained(Taking(Work(ret, 0, 0), d, bits), bits) == Work(ret + [d], 0, 0)
  {
    hide Or, Quot, Rem, Pow;
    NoPower();
    OrNothing(d);
    SmallRem(d, 0x1_0000);
    SmallRem(d, 256);
    QuotOne(d);
    var w := Taking(Work(ret, 0, 0), d, bits);
    assert w == Work(ret, d, bits);
    assert Rem(d, 1) < 1;
    assert Drained(Work(ret + [d], 0, 0), bits) == Work(ret + [d], 0, 0);
  }

  /** 32 as a symbol of five bits comes out as 32. */
  lemma WideSymbolsSpill()
    ensures Converted([32], 5, 5) == [32] && !AllBelow(Converted([32], 5, 5), Pow(2, 5))
  {
    hide Pow, Converted;
    TwoToTheEight();
    SameWidthIsIdentity([32], 5);
  }

  lemma CountCompleted(n: nat, inbits: nat, outbits: nat, k: nat, accBits: nat)
    requires 0 < accBits < outbits < inbits && BitCount(k, outbits) + accBits == BitCount(n, inbits)
    ensures Count(n, inbits, outbits) == k + 1
  {
    OneMore(k, outbits);
    CeilUnique(k + 1, outbits - accBits, outbits);
  }

  lemma CountCutOff(n: nat, inbits: nat, outbits: nat, k: nat, accBits: nat)
    requires accBits < outbits && BitCount(k, outbits) + accBits == BitCount(n, inbits) && (accBits == 0 || inbits <= outbits)
    ensures Count(n, inbits, outbits) == k
  {
    QuotUnique(k, accBits, outbits);
    if inbits > outbits {
      CeilUnique(k, 0, outbits);
    }
  }

  lemma OneMore(n: nat, bits: nat)
    ensures BitCount(n + 1, bits) == BitCount(n, bits) + bits
  {
  }

  lemma Completed(data: seq<byte>, inbits: nat, ret: seq<byte>, outbits: nat, acc: nat, accBits: nat)
    requires Pending(data, inbits, ret, outbits, acc, accBits)
    requires 0 < accBits < outbits < inbits <= 8 && BitCount(|ret|, outbits) + accBits == BitCount(|data|, inbits)
    ensures ret + [Rem(acc * Pow(2, outbits - accBits), 256)] == Regroup(data, inbits, outbits)
  {
    hide Pow, Quot, Rem, Digits, Count, BitCount;
    var gap := outbits - accBits;
    var last := acc * Pow(2, gap);
    LastSymbol(Value(ret, Pow(2, outbits)), acc, accBits, outbits);
    var r := ret + [last];
    assert r[..|ret|] == ret;
    CountCompleted(|data|, inbits, outbits, |ret|, accBits);
    OneMore(|ret|, outbits);
    DigitsOfValue(r, Pow(2, outbits));
  }

  lemma LastSymbol(done: nat, acc: nat, accBits: nat, outbits: nat)
    requires acc < Pow(2, accBits) && 0 < accBits < outbits <= 8
    ensures var last := acc * Pow(2, outbits - accBits);
            && Rem(last, 256) == last < Pow(2, outbits)
            && done * Pow(2, outbits) + last == (done * Pow(2, accBits) + acc) * Pow(2, outbits - accBits)
  {
    hide Quot, Rem, Pow;
    TakeSymbol(done, acc, accBits, outbits - accBits, 0);
    SmallPowers(outbits);
    QuotUnique(0, acc * Pow(2, outbits - accBits), 256);
  }

  lemma CutOff(data: seq<byte>, inbits: nat, ret: seq<byte>, outbits: nat, acc: nat, accBits: nat)
    requires Pending(data, inbits, ret, outbits, acc, accBits)
    requires accBits < outbits <= 8 && BitCount(|ret|, outbits) + accBits == BitCount(|data|, inbits)
    requires accBits == 0 || inbits <= outbits
    ensures ret == Regroup(data, inbits, outbits)
  {
    hide Pow, Quot, Rem, Digits, Count, Value, BitCount;
    CountCutOff(|data|, inbits, outbits, |ret|, accBits);
    QuotUnique(Value(ret, Pow(2, outbits)), acc, Pow(2, accBits));
    DigitsOfValue(ret, Pow(2, outbits));
    NoPower();
  }

  // ----------------------------------------------------------------- round trips

  /** The bits at the end of `data` that do not fill a symbol of the other width. */
  function Leftover(n: nat, inbits: nat, outbits: nat): nat
    requires outbits > 0
  {
    Rem(BitCount(n, inbits), outbits)
  }

  /** Regrouping by a known number of symbols. */
  lemma RegroupIs(data: seq<nat>, inbits: nat, outbits: nat, k: nat)
    requires outbits > 0 && Count(|data|, inbits, outbits) == k
    ensures Regroup(data, inbits, outbits) ==
            Digits(Fitted(Value(data, Pow(2, inbits)), BitCount(|data|, inbits), BitCount(k, outbits)), k, Pow(2, outbits))
  {
  }

  lemma {:induction false} QuotLess(n: nat, m: nat, b: nat)
    requires b > 0 && n < m * b
    ensures Quot(n, b) < m
  {
    hide Quot, Rem;
    QuotRem(n, b);
    if Quot(n, b) >= m {
      MulMonotone(m, Quot(n, b), b);
    }
  }

  /** Narrowing keeps all bits, with `pad` zeros behind. */
  lemma Narrowed(b: seq<nat>, i: nat, o: nat, pad: nat)
    requires 0 < o <= i && pad < o && AllBelow(b, Pow(2, i))
    requires BitCount(Count(|b|, i, o), o) == BitCount(|b|, i) + pad
    ensures var c := Regroup(b, i, o);
            AllBelow(c, Pow(2, o)) && Value(c, Pow(2, o)) == Value(b, Pow(2, i)) * Pow(2, pad)
  {
    hide Pow, Digits, Quot, Rem, BitCount, Count, Value, Regroup, Fitted;
    var k := Count(|b|, i, o);
    RegroupBelow(b, i, o);
    RegroupIs(b, i, o, k);
    var v := Value(b, Pow(2, i));
    FittedLarger(v, BitCount(|b|, i), pad);
    ValueBound(b, Pow(2, i));
    PowPow(i, |b|);
    PowPow(o, k);
    PaddedBound(v, BitCount(|b|, i), pad);
    ValueOfDigits(v * Pow(2, pad), k, Pow(2, o));
  }

  lemma PaddedBound(v: nat, bits: nat, pad: nat)
    requires v < Pow(2, bits)
    ensures v * Pow(2, pad) < Pow(2, bits + pad)
  {
    hide Pow;
    PowAdd(2, bits, pad);
    StrictMonotone(v, Pow(2, bits), Pow(2, pad));
  }

  lemma FittedLarger(value: nat, bits: nat, pad: nat)
    ensures Fitted(value, bits, bits + pad) == value * Pow(2, pad)
  {
  }

  lemma QuotOne(v: nat)
    ensures Quot(v, 1) == v
  {
    QuotUnique(v, 0, 1);
  }

  lemma StrictMonotone(v: nat, m: nat, p: nat)
    requires v < m && p > 0
    ensures v * p < m * p
  {
    MulMonotone(v + 1, m, p);
    Nest(1, v, 1, p);
  }

  /** `k` symbols of `w` bits have as many values as one of `k * w` bits. */
  lemma {:induction false} PowPow(w: nat, k: nat)
    ensures Pow(Pow(2, w), k) == Pow(2, BitCount(k, w))
    decreases k
  {
    hide Pow, BitCount;
    if k == 0 {
      NoPowers(Pow(2, w), w);
    } else {
      PowPow(w, k - 1);
      OneMore(k - 1, w);
      PowAdd(2, w, BitCount(k - 1, w));
      OnePower(Pow(2, w), k);
    }
  }

  lemma NoPowers(b: nat, w: nat)
    ensures Pow(b, 0) == 1 && Pow(2, BitCount(0, w)) == 1
  {
  }

  lemma OnePower(b: nat, k: nat)
    requires k > 0
    ensures Pow(b, k) == b * Pow(b, k - 1)
  {
  }

  lemma PadOf(n: nat, i: nat, o: nat) returns (pad: nat)
    requires 0 < o <= i
    ensures pad < o && BitCount(Count(n, i, o), o) == BitCount(n, i) + pad
  {
    hide Quot, Rem;
    var bits := BitCount(n, i);
    if o < i {
      QuotRem(bits + o - 1, o);
      pad := o - 1 - Rem(bits + o - 1, o);
    } else {
      QuotUnique(n, 0, o);
      pad := 0;
    }
  }

  /** Cutting the padding off again. */
  lemma NarrowAndBack(b: seq<nat>, i: nat, o: nat)
    requires 0 < o <= i && AllBelow(b, Pow(2, i))
    ensures Regroup(Regroup(b, i, o), o, i) == b
  {
    hide Pow, Digits, Quot, Rem, BitCount, Regroup, Value;
    var pad := PadOf(|b|, i, o);
    Narrowed(b, i, o, pad);
    var c := Regroup(b, i, o);
    var v := Value(b, Pow(2, i));
    CountBack(|b|, i, o, pad, |c|);
    RegroupIs(c, o, i, |b|);
    QuotUnique(v, 0, Pow(2, pad));
    NoPower();
    DigitsOfValue(b, Pow(2, i));
  }

  lemma CountBack(n: nat, i: nat, o: nat, pad: nat, k: nat)
    requires 0 < o <= i && pad < o && BitCount(k, o) == BitCount(n, i) + pad
    ensures Count(k, o, i) == n
  {
    hide Quot;
    QuotUnique(n, pad, i);
  }

  /** Widening cuts off what does not fill a symbol. */
  lemma Widened(b: seq<nat>, i: nat, o: nat)
    requires 0 < i < o && AllBelow(b, Pow(2, i))
    ensures var r, c := Leftover(|b|, i, o), Regroup(b, i, o);
            && BitCount(|c|, o) + r == BitCount(|b|, i)
            && AllBelow(c, Pow(2, o)) && Value(c, Pow(2, o)) == Quot(Value(b, Pow(2, i)), Pow(2, r))
  {
    hide Pow, Digits, Quot, Rem, BitCount, Value;
    var k := Count(|b|, i, o);
    QuotRem(BitCount(|b|, i), o);
    BitCountIs(k, o);
    RegroupBelow(b, i, o);
    RegroupIs(b, i, o, k);
    var r, v := Leftover(|b|, i, o), Value(b, Pow(2, i));
    ValueBound(b, Pow(2, i));
    PowPow(i, |b|);
    PowPow(o, k);
    PowAdd(2, BitCount(k, o), r);
    QuotLess(v, Pow(2, BitCount(k, o)), Pow(2, r));
    NoPower();
    QuotOne(v);
    ValueOfDigits(Quot(v, Pow(2, r)), k, Pow(2, o));
  }

  lemma BitCountIs(n: nat, bits: nat)
    ensures BitCount(n, bits) == n * bits
  {
  }

  /** Regrouping there and back gives the same symbols exactly when the way there narrows, or cuts off nothing but zeros of the
      last symbol. */
  lemma ThereAndBack(b: seq<nat>, i: nat, o: nat)
    requires 0 < i && 0 < o && AllBelow(b, Pow(2, i))
    ensures Regroup(Regroup(b, i, o), o, i) == b <==>
            o <= i || (Leftover(|b|, i, o) < i && Rem(Value(b, Pow(2, i)), Pow(2, Leftover(|b|, i, o))) == 0)
  {
    hide Pow, Digits, Quot, Rem, BitCount, Regroup, Value, Leftover;
    if o <= i {
      NarrowAndBack(b, i, o);
    } else {
      Widened(b, i, o);
      var r, c, v := Leftover(|b|, i, o), Regroup(b, i, o), Value(b, Pow(2, i));
      if r < i {
        CeilBack(|b|, i, o, r, |c|);
        Narrowed(c, o, i, r);
        QuotRem(v, Pow(2, r));
        var d := Regroup(c, o, i);
        if Rem(v, Pow(2, r)) == 0 {
          ValueInjective(d, b, Pow(2, i));
        }
      } else {
        CountFewer(|b|, i, o, r, |c|);
      }
    }
  }

  lemma CeilBack(n: nat, i: nat, o: nat, r: nat, k: nat)
    requires 0 < i < o && r < i && BitCount(k, o) + r == BitCount(n, i)
    ensures Count(k, o, i) == n
  {
    hide Quot;
    CeilUnique(n, r, i);
  }

  lemma CountFewer(n: nat, i: nat, o: nat, r: nat, k: nat)
    requires 0 < i < o && r >= i && BitCount(k, o) + r == BitCount(n, i)
    ensures Count(k, o, i) < n
  {
    hide Quot;
    QuotLess(BitCount(k, o) + i - 1, n, i);
  }
}
