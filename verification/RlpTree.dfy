/** The values RLP encodes and their encoding, as Appendix B of the Ethereum Yellow Paper defines it. */
module RlpTree {
  import opened Numbers

  const DATA_IMM_LEN_START: nat := 0x80
  const LIST_START: nat := 0xc0
  const MAX_LENGTH_BYTES: nat := 8
  const DATA_IMM_LEN_COUNT: nat := LIST_START - DATA_IMM_LEN_START - MAX_LENGTH_BYTES
  const DATA_IND_LEN_ZERO: nat := DATA_IMM_LEN_START + DATA_IMM_LEN_COUNT - 1
  const LIST_IMM_LEN_COUNT: nat := 256 - LIST_START - MAX_LENGTH_BYTES
  const LIST_IND_LEN_ZERO: nat := LIST_START + LIST_IMM_LEN_COUNT - 1

  /** The exceptions of libdevcore/RLP.cpp. */
  datatype Error = BadRLP | UndersizeRLP | OversizeRLP | BadCast | ItemCountTooLarge | TooLargeForRLP | ListStackNotEmpty

  datatype Result<+T> = Success(value: T) | Failure(error: Error) {
    predicate IsFailure() {
      Failure?
    }

    function PropagateFailure<U>(): Result<U>
      requires Failure?
    {
      Failure(error)
    }

    function Extract(): T
      requires Success?
    {
      value
    }
  }

  datatype Outcome = Pass | Fail(error: Error) {
    predicate IsFailure() {
      Fail?
    }

    function PropagateFailure(): Outcome
      requires Fail?
    {
      this
    }
  }

  datatype Tree = Leaf(data: seq<byte>) | Node(items: seq<Tree>)

  /** What precedes a payload of `n` bytes: one byte for fewer than 56, else the length of the length and the length. */
  function Header(start: nat, n: nat): seq<byte>
    requires start == DATA_IMM_LEN_START || start == LIST_START
  {
    if n < 56 then [start + n] else [(start + 55 + ByteLength(n)) % 256] + MinBytes(n)
  }

  function EncodeData(d: seq<byte>): seq<byte> {
    if |d| == 1 && d[0] < 0x80 then d else Header(DATA_IMM_LEN_START, |d|) + d
  }

  function EncodeList(payload: seq<byte>): (r: seq<byte>)
    ensures |r| > |payload|
  {
    Header(LIST_START, |payload|) + payload
  }

  function Encode(t: Tree): seq<byte>
    decreases t, 1
  {
    match t
    case Leaf(d) => EncodeData(d)
    case Node(items) => EncodeList(EncodeAll(items))
  }

  function EncodeAll(ts: seq<Tree>): seq<byte>
    decreases ts, 0
  {
    if ts == [] then [] else Encode(ts[0]) + EncodeAll(ts[1..])
  }

  lemma {:induction false} EncodeAllConcat(xs: seq<Tree>, ys: seq<Tree>)
    ensures EncodeAll(xs + ys) == EncodeAll(xs) + EncodeAll(ys)
  {
    if xs == [] {
      assert xs + ys == ys;
    } else {
      EncodeAllConcat(xs[1..], ys);
      assert (xs + ys)[1..] == xs[1..] + ys;
      Associative(Encode(xs[0]), EncodeAll(xs[1..]), EncodeAll(ys));
    }
  }

  lemma EncodeAllOne(t: Tree)
    ensures EncodeAll([t]) == Encode(t)
  {
    assert [t][1..] == [];
  }

  lemma EncodeNode(items: seq<Tree>)
    ensures Encode(Node(items)) == EncodeList(EncodeAll(items))
  {
  }

  /** Eight bytes hold exactly the lengths below 2^64. */
  lemma EightBytes(n: nat)
    ensures ByteLength(n) <= 8 <==> n < SIZE_T_COUNT
  {
    ByteLengthAtMost(n, 8);
    PowEight();
  }
}
