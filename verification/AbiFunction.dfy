/** Call data: a four-byte selector and the parameters right behind it, off the word grid (libcfxcore/abi/Function.cpp). */
module AbiFunction {
  import opened Numbers
  import opened AbiParam
  import AbiEncoder
  import opened AbiDecoder
  import AbiRoundTrip

  /** A function with its selector, the first four bytes of the keccak hash of its signature, which stays uninterpreted. */
  datatype Function = Function(selector: seq<byte>, inParams: seq<Param>)

  ghost predicate Valid(f: Function) {
    |f.selector| == 4
  }

  /** `Function::encode` */
  method EncodeCall(f: Function, data: seq<byte>) returns (r: seq<byte>)
    ensures r == data + f.selector + AbiEncoder.EncodedSet(f.inParams)
  {
    r := data + f.selector;
    r := AbiEncoder.EncodeSet(f.inParams, r);
  }

  /** `Function::decodeInput`: the parameters and the offset behind them. */
  function DecodedInput(f: Function, enc: seq<byte>, off: nat): Attempt<(seq<Param>, nat)> {
    var hash :- Decoded(FixedBytes(4, [0, 0, 0, 0]), enc, off);
    if hash.0.data != f.selector then Nothing else DecodedSet(f.inParams, enc, hash.1 - 32 + 4)
  }

  method DecodeInput(f: Function, enc: seq<byte>, off: nat) returns (r: Attempt<(seq<Param>, nat)>)
    requires |enc| < SIZE_T_COUNT
    ensures r == DecodedInput(f, enc, off)
  {
    var p :- Decode(FixedBytes(4, [0, 0, 0, 0]), enc, off);
    // the selector is not padded
    var offset := p.1 - 32 + 4;
    if p.0.data != f.selector {
      return Nothing;
    }
    r := DecodeSet(f.inParams, enc, offset);
  }

  /** Decoding call data restores the arguments, at any offset; call data of another function is refused. */
  lemma CallsRoundTrip(f: Function, g: Function, enc: seq<byte>, off: nat)
    requires Valid(f) && Valid(g) && AbiRoundTrip.AllFit(g.inParams, f.inParams)
    requires AbiRoundTrip.Lies(f.selector + AbiEncoder.EncodedSet(f.inParams), enc, off)
    ensures DecodedInput(g, enc, off) ==
            if g.selector == f.selector then Got((f.inParams, off + 4 + |AbiEncoder.EncodedSet(f.inParams)|)) else Nothing
  {
    hide AbiEncoder.EncodedSet, DecodedSet, AbiRoundTrip.Lies, AbiRoundTrip.AllFit;
    AbiRoundTrip.LiesApart(f.selector, AbiEncoder.EncodedSet(f.inParams), enc, off);
    SelectorRead(f.selector, enc, off);
    AbiRoundTrip.SetRestores(g.inParams, f.inParams, enc, off + 4);
  }

  lemma SelectorRead(selector: seq<byte>, enc: seq<byte>, off: nat)
    requires |selector| == 4 && AbiRoundTrip.Lies(selector, enc, off)
    ensures Decoded(FixedBytes(4, [0, 0, 0, 0]), enc, off) == Got((FixedBytes(4, selector), off + 32))
  {
    assert selector + [] == selector;
  }
}
