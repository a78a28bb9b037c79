/** TransactionBase::streamRLP and what the two forms of the encoding determine (libcfxcore/TransactionBase.cpp). */
module TransactionRlp {
  import opened Numbers
  import opened RlpTree
  import opened RlpWriter
  import opened RlpBuilder
  import RlpRoundTrip
  import RlpReader
  import RlpCursor
  import RlpIndex
  import RlpInt

  datatype Kind = NullTransaction | ContractCreation | MessageCall

  datatype Signature = Signature(v: byte, r: nat, s: nat)

  datatype Transaction = Transaction(
    kind: Kind,
    nonce: nat,
    gasPrice: nat,
    gas: nat,
    receiveAddress: seq<byte>,
    value: nat,
    storageLimit: nat,
    epochHeight: nat,
    chainId: nat,
    data: seq<byte>)

  predicate IsU256(n: nat) {
    ByteLength(n) <= 32
  }

  /** The fields have the types of TransactionBase.h: u256 numbers, a 20-byte address, a vector of bytes. */
  predicate Typed(tx: Transaction) {
    && IsU256(tx.nonce) && IsU256(tx.gasPrice) && IsU256(tx.gas) && IsU256(tx.value)
    && IsU256(tx.storageLimit) && IsU256(tx.epochHeight) && IsU256(tx.chainId)
    && |tx.receiveAddress| == 20 && |tx.data| <= MAX_VECTOR - 1024
  }

  predicate TypedSignature(sig: Signature) {
    IsU256(sig.r) && IsU256(sig.s)
  }

  function Receiver(tx: Transaction): seq<byte> {
    if tx.kind == MessageCall then tx.receiveAddress else []
  }

  function Fields(tx: Transaction): (r: seq<seq<byte>>)
    ensures |r| == 9
  {
    [MinBytes(tx.nonce), MinBytes(tx.gasPrice), MinBytes(tx.gas), Receiver(tx), MinBytes(tx.value),
     MinBytes(tx.storageLimit), MinBytes(tx.epochHeight), MinBytes(tx.chainId), tx.data]
  }

  function Leaves(fields: seq<seq<byte>>): (r: seq<Tree>)
    ensures |r| == |fields| && forall i :: 0 <= i < |r| ==> r[i] == Leaf(fields[i])
  {
    seq(|fields|, i requires 0 <= i < |fields| => Leaf(fields[i]))
  }

  /** The list of docs/transaction.md that is hashed and signed. */
  function Unsigned(tx: Transaction): Tree {
    Node(Leaves(Fields(tx)))
  }

  function SignedItems(tx: Transaction, sig: Signature): (r: seq<Tree>)
    ensures |r| == 4
  {
    [Unsigned(tx), Leaf(MinBytes(sig.v)), Leaf(MinBytes(sig.r)), Leaf(MinBytes(sig.s))]
  }

  function Signed(tx: Transaction, sig: Signature): Tree {
    Node(SignedItems(tx, sig))
  }

  // ------------------------------------------------------------------- reading back

  /** Item `i`, read by strict `toInt` as a u256, is `n`. */
  ghost predicate NumberAt(d: seq<byte>, i: nat, n: nat) {
    var item := RlpIndex.Item(d, i);
    item.Some? && RlpInt.ToInt(item.value, RlpInt.Fixed(32), RlpReader.STRICT) == Success(n)
  }

  /** Item `i` is a string with the payload `p`. */
  ghost predicate BytesAt(d: seq<byte>, i: nat, p: seq<byte>) {
    var item := RlpIndex.Item(d, i);
    item.Some? && RlpReader.IsData(item.value) && RlpReader.Payload(item.value) == Success(p)
  }

  /** The list of docs/transaction.md, item by item. */
  ghost predicate ReadsUnsigned(d: seq<byte>, tx: Transaction) {
    && NumberAt(d, 0, tx.nonce) && NumberAt(d, 1, tx.gasPrice) && NumberAt(d, 2, tx.gas)
    && BytesAt(d, 3, if tx.kind == MessageCall then tx.receiveAddress else [])
    && NumberAt(d, 4, tx.value) && NumberAt(d, 5, tx.storageLimit) && NumberAt(d, 6, tx.epochHeight)
    && NumberAt(d, 7, tx.chainId) && BytesAt(d, 8, tx.data) && RlpIndex.Item(d, 9) == None
  }

  /** That list as item 0, and the signature. */
  ghost predicate ReadsSigned(d: seq<byte>, tx: Transaction, sig: Signature) {
    && RlpIndex.Item(d, 0).Some? && ReadsUnsigned(RlpIndex.Item(d, 0).value, tx)
    && NumberAt(d, 1, sig.v) && NumberAt(d, 2, sig.r) && NumberAt(d, 3, sig.s) && RlpIndex.Item(d, 4) == None
  }

  lemma NumberReads(items: seq<Tree>, k: nat, n: nat)
    requires RlpRoundTrip.AllReadable(items) && |EncodeAll(items)| < RlpReader.LENGTH_LIMIT
    requires k < |items| && items[k] == Leaf(MinBytes(n)) && IsU256(n)
    ensures NumberAt(Encode(Node(items)), k, n)
  {
    hide EncodeAll, EncodeData, MinBytes, ByteLength, RlpInt.ToInt;
    RlpIndex.ItemOfEncoding(items, k);
    RlpInt.StrictIntsAreEncodings(EncodeData(MinBytes(n)), RlpInt.Fixed(32), n);
  }

  lemma BytesRead(items: seq<Tree>, k: nat, p: seq<byte>)
    requires RlpRoundTrip.AllReadable(items) && |EncodeAll(items)| < RlpReader.LENGTH_LIMIT
    requires k < |items| && items[k] == Leaf(p) && |p| < RlpReader.LENGTH_LIMIT
    ensures BytesAt(Encode(Node(items)), k, p)
  {
    hide EncodeAll, EncodeData;
    RlpIndex.ItemOfEncoding(items, k);
    RlpReader.DataIsAccepted(p, []);
    assert EncodeData(p) + [] == EncodeData(p);
  }

  // ------------------------------------------------------------------- sizes

  function Total(fields: seq<seq<byte>>): nat {
    if fields == [] then 0 else |fields[0]| + 9 + Total(fields[1..])
  }

  lemma {:induction false} LeavesSize(fields: seq<seq<byte>>)
    requires Total(fields) < RlpReader.LENGTH_LIMIT
    ensures |EncodeAll(Leaves(fields))| <= Total(fields)
    ensures RlpRoundTrip.AllReadable(Leaves(fields)) && AllWritable(Leaves(fields))
    ensures forall i :: 0 <= i < |fields| ==> |fields[i]| < RlpReader.LENGTH_LIMIT
  {
    hide Encode;
    if fields != [] {
      var rest := fields[1..];
      LeavesSize(rest);
      LeafSize(fields[0]);
      var ts := Leaves(fields);
      assert ts[0] == Leaf(fields[0]) && ts[1..] == Leaves(rest);
      assert forall i :: 1 <= i < |fields| ==> fields[i] == rest[i - 1];
    }
  }

  lemma LeafSize(d: seq<byte>)
    requires |d| < RlpReader.LENGTH_LIMIT
    ensures |Encode(Leaf(d))| <= |d| + 9
  {
    EightBytes(|d|);
  }

  lemma {:induction false} ShortFields(fields: seq<seq<byte>>)
    requires fields != [] && forall i :: 0 <= i < |fields| - 1 ==> |fields[i]| <= 32
    ensures Total(fields) <= 41 * |fields| + |fields[|fields| - 1]|
  {
    if |fields| > 1 {
      ShortFields(fields[1..]);
    } else {
      assert fields[1..] == [];
    }
  }

  /** A typed transaction fits everywhere: the writer does not fail on it and the reader accepts it. */
  lemma UnsignedFits(tx: Transaction)
    requires Typed(tx)
    ensures RlpRoundTrip.Readable(Unsigned(tx)) && Writable(Unsigned(tx)) && |Encode(Unsigned(tx))| <= |tx.data| + 400
    ensures forall i :: 0 <= i < 9 ==> |Fields(tx)[i]| < RlpReader.LENGTH_LIMIT
  {
    ShortFields(Fields(tx));
    LeavesSize(Fields(tx));
    EightBytes(|EncodeAll(Leaves(Fields(tx)))|);
  }

  lemma SignedFits(tx: Transaction, sig: Signature)
    requires Typed(tx) && TypedSignature(sig)
    ensures RlpRoundTrip.AllReadable(SignedItems(tx, sig)) && |Encode(Signed(tx, sig))| <= MAX_VECTOR
    ensures |EncodeAll(SignedItems(tx, sig))| < RlpReader.LENGTH_LIMIT
  {
    hide Encode, Unsigned;
    UnsignedFits(tx);
    var rest := [MinBytes(sig.v), MinBytes(sig.r), MinBytes(sig.s)];
    OneByte(sig.v);
    ShortFields(rest);
    LeavesSize(rest);
    var items := SignedItems(tx, sig);
    assert items[0] == Unsigned(tx) && items[1..] == Leaves(rest);
    EncodeNode(items);
    ListHeaderSize(EncodeAll(items));
  }

  lemma ListHeaderSize(p: seq<byte>)
    requires |p| < RlpReader.LENGTH_LIMIT
    ensures |EncodeList(p)| <= |p| + 9
  {
    EightBytes(|p|);
  }

  // ----------------------------------------------------------------- streaming

  /** Appending the next string of an open list. */
  lemma NextLeaf(s: Stream, items: seq<Tree>, k: nat, d: seq<byte>)
    requires WellFormed(s) && k < |items| && |EncodeAll(items)| < SIZE_T_COUNT
    requires items[k] == Leaf(d) && |d| < RlpReader.LENGTH_LIMIT
    ensures WellFormed(Midway(s, items, k))
    ensures DataAppended(Midway(s, items, k), d) ==
            if k + 1 < |items| then Success(Midway(s, items, k + 1)) else Noted(Written(s, Encode(Node(items))), 1)
  {
    hide Midway, EncodeAll;
    NextItem(s, items, k);
    EightBytes(|d|);
  }

  /** `_s << number` inside the list that `items` describes. */
  method PutNumber(stream: RLPStream, n: nat, ghost s: Stream, ghost items: seq<Tree>, ghost k: nat) returns (r: Outcome)
    requires WellFormed(s) && k < |items| && |EncodeAll(items)| < SIZE_T_COUNT
    requires stream.Valid() && stream.State() == Midway(s, items, k)
    requires items[k] == Leaf(MinBytes(n)) && ByteLength(n) <= 32
    modifies stream
    ensures stream.Valid() && AfterItem(r, stream.State(), s, items, k)
  {
    hide Midway, EncodeAll, Noted, DataAppended;
    NextLeaf(s, items, k, MinBytes(n));
    r := stream.AppendBigint(n);
  }

  /** `_s << bytes` inside the list that `items` describes. */
  method PutBytes(stream: RLPStream, d: seq<byte>, ghost s: Stream, ghost items: seq<Tree>, ghost k: nat) returns (r: Outcome)
    requires WellFormed(s) && k < |items| && |EncodeAll(items)| < SIZE_T_COUNT
    requires stream.Valid() && stream.State() == Midway(s, items, k)
    requires items[k] == Leaf(d) && |d| < RlpReader.LENGTH_LIMIT
    modifies stream
    ensures stream.Valid() && AfterItem(r, stream.State(), s, items, k)
  {
    hide Midway, EncodeAll, Noted, DataAppended;
    NextLeaf(s, items, k, d);
    r := stream.Append(d, false);
  }

  /** One more item of the open list is written; after the last one the whole list counts as an item. */
  ghost predicate AfterItem(r: Outcome, now: Stream, s: Stream, items: seq<Tree>, k: nat)
    requires WellFormed(s) && k < |items|
  {
    if k + 1 < |items| then r.Pass? && now == Midway(s, items, k + 1)
    else Agrees(r, s, now, Noted(Written(s, Encode(Node(items))), 1))
  }

  /** The nine fields, in the order of the source. */
  method StreamUnsigned(tx: Transaction, stream: RLPStream) returns (r: Outcome)
    requires Typed(tx) && stream.Valid()
    modifies stream
    ensures stream.Valid()
    ensures Agrees(r, old(stream.State()), stream.State(), Noted(Written(old(stream.State()), Encode(Unsigned(tx))), 1))
  {
    hide EncodeAll, Encode, Noted, MinBytes, ByteLength, RlpRoundTrip.Readable, Writable;
    ghost var s := stream.State();
    ghost var items := Leaves(Fields(tx));
    UnsignedFits(tx);
    UnsignedPayloadFits(tx);
    r := stream.AppendList(9);
    MidwayAtStart(s, items);
    hide Midway;
    r := PutNumber(stream, tx.nonce, s, items, 0);
    r := PutNumber(stream, tx.gasPrice, s, items, 1);
    r := PutNumber(stream, tx.gas, s, items, 2);
    r := PutReceiver(tx, stream, s, items);
    r := PutNumber(stream, tx.value, s, items, 4);
    r := PutNumber(stream, tx.storageLimit, s, items, 5);
    r := PutNumber(stream, tx.epochHeight, s, items, 6);
    r := PutNumber(stream, tx.chainId, s, items, 7);
    r := PutData(tx, stream, s, items);
  }

  method PutReceiver(tx: Transaction, stream: RLPStream, ghost s: Stream, ghost items: seq<Tree>) returns (r: Outcome)
    requires Typed(tx) && WellFormed(s) && 3 < |items| && |EncodeAll(items)| < SIZE_T_COUNT && items[3] == Leaf(Receiver(tx))
    requires stream.Valid() && stream.State() == Midway(s, items, 3)
    modifies stream
    ensures stream.Valid() && AfterItem(r, stream.State(), s, items, 3)
  {
    hide EncodeAll, Midway, AfterItem, WellFormed;
    if tx.kind == MessageCall {
      r := PutBytes(stream, tx.receiveAddress, s, items, 3);
    } else {
      r := PutBytes(stream, [], s, items, 3);
    }
  }

  method PutData(tx: Transaction, stream: RLPStream, ghost s: Stream, ghost items: seq<Tree>) returns (r: Outcome)
    requires Typed(tx) && WellFormed(s) && 8 < |items| && |EncodeAll(items)| < SIZE_T_COUNT && items[8] == Leaf(tx.data)
    requires |tx.data| < RlpReader.LENGTH_LIMIT && stream.Valid() && stream.State() == Midway(s, items, 8)
    modifies stream
    ensures stream.Valid() && AfterItem(r, stream.State(), s, items, 8)
  {
    hide EncodeAll, Midway, AfterItem, WellFormed;
    if tx.data == [] {
      r := PutBytes(stream, [], s, items, 8);
    } else {
      r := PutBytes(stream, tx.data, s, items, 8);
    }
  }

  lemma UnsignedPayloadFits(tx: Transaction)
    requires Typed(tx)
    ensures |EncodeAll(Leaves(Fields(tx)))| < SIZE_T_COUNT
  {
    hide Encode, EncodeAll;
    UnsignedFits(tx);
  }

  lemma MidwayAtStart(s: Stream, items: seq<Tree>)
    ensures Midway(s, items, 0) == s.(stack := s.stack + [Frame(|items|, |s.out|)])
  {
    assert items[..0] == [] && s.out + [] == s.out;
  }

  /** `streamRLP(_s, _sig)`: with a signature the nine fields become the first of four items. */
  method StreamRLP(tx: Transaction, sig: Signature, stream: RLPStream, withSignature: bool) returns (r: Outcome)
    requires Typed(tx) && TypedSignature(sig) && stream.Valid()
    modifies stream
    ensures stream.Valid()
    ensures var t := if withSignature then Signed(tx, sig) else Unsigned(tx);
            Agrees(r, old(stream.State()), stream.State(), Noted(Written(old(stream.State()), Encode(t)), 1))
  {
    hide EncodeAll, Encode, Noted, MinBytes, ByteLength, RlpRoundTrip.Readable, Writable, Unsigned;
    ghost var s := stream.State();
    ghost var items := SignedItems(tx, sig);
    if !withSignature {
      r := StreamUnsigned(tx, stream);
      return;
    }
    SignedFits(tx, sig);
    OneByte(sig.v);
    r := stream.AppendList(4);
    MidwayAtStart(s, items);
    NextItem(s, items, 0);
    hide Midway;
    r := StreamUnsigned(tx, stream);
    r := PutNumber(stream, sig.v, s, items, 1);
    r := PutNumber(stream, sig.r, s, items, 2);
    r := PutNumber(stream, sig.s, s, items, 3);
  }

  /** Read back with `operator[]` and strict `toInt`, every item is the field that docs/transaction.md puts there. */
  lemma UnsignedReads(tx: Transaction)
    requires Typed(tx)
    ensures ReadsUnsigned(Encode(Unsigned(tx)), tx)
  {
    hide EncodeAll, Encode, MinBytes, ByteLength, NumberAt, BytesAt, RlpRoundTrip.AllReadable;
    var fields := Fields(tx);
    var items := Leaves(fields);
    ShortFields(fields);
    LeavesSize(fields);
    NumberReads(items, 0, tx.nonce);
    NumberReads(items, 1, tx.gasPrice);
    NumberReads(items, 2, tx.gas);
    BytesRead(items, 3, Receiver(tx));
    NumberReads(items, 4, tx.value);
    NumberReads(items, 5, tx.storageLimit);
    NumberReads(items, 6, tx.epochHeight);
    NumberReads(items, 7, tx.chainId);
    BytesRead(items, 8, tx.data);
    RlpIndex.ItemOfEncoding(items, 9);
  }

  lemma SignedReads(tx: Transaction, sig: Signature)
    requires Typed(tx) && TypedSignature(sig)
    ensures ReadsSigned(Encode(Signed(tx, sig)), tx, sig)
  {
    hide EncodeAll, Encode, MinBytes, ByteLength, NumberAt, Unsigned, ReadsUnsigned, RlpRoundTrip.AllReadable;
    var items := SignedItems(tx, sig);
    SignedFits(tx, sig);
    UnsignedReads(tx);
    OneByte(sig.v);
    RlpIndex.ItemOfEncoding(items, 0);
    NumberReads(items, 1, sig.v);
    NumberReads(items, 2, sig.r);
    NumberReads(items, 3, sig.s);
    RlpIndex.ItemOfEncoding(items, 4);
  }

  /** What a fresh stream holds after `streamRLP`: the whole encoding, and no open list. */
  method Serialise(tx: Transaction, sig: Signature, withSignature: bool) returns (out: seq<byte>)
    requires Typed(tx) && TypedSignature(sig)
    ensures out == Encode(if withSignature then Signed(tx, sig) else Unsigned(tx))
    ensures if withSignature then ReadsSigned(out, tx, sig) else ReadsUnsigned(out, tx)
  {
    hide ReadsSigned, ReadsUnsigned;
    var stream := new RLPStream();
    var r := StreamRLP(tx, sig, stream, withSignature);
    var bytes := stream.Out();
    ghost var t := if withSignature then Signed(tx, sig) else Unsigned(tx);
    assert [] + Encode(t) == Encode(t);
    UnsignedReads(tx);
    SignedReads(tx, sig);
    return bytes.value;
  }

  // ------------------------------------------------- what the encodings determine

  /** The bytes that are hashed for signing are item 0 of the signed transaction. */
  lemma HashedBytesAreItemZero(tx: Transaction, sig: Signature, r: RlpIndex.RLP)
    requires Typed(tx) && TypedSignature(sig)
    requires r.mem == Encode(Signed(tx, sig)) && r.m_data == RlpCursor.Window(0, |r.mem|)
    ensures r.Readable() && |r.Cuts()| == 5
    ensures RlpCursor.Inside(r.mem, r.ItemView(0)) && RlpCursor.Content(r.mem, r.ItemView(0)) == Encode(Unsigned(tx))
  {
    hide Encode, EncodeAll, Unsigned;
    var items := SignedItems(tx, sig);
    SignedFits(tx, sig);
    EncodeNode(items);
    RlpIndex.IndexOfEncoding(r, items, 0);
  }

  /** The unsigned bytes agree exactly when every field does, the receiver counting only in a call. */
  lemma UnsignedDeterminesFields(tx: Transaction, ux: Transaction)
    requires Typed(tx) && Typed(ux)
    ensures Encode(Unsigned(tx)) == Encode(Unsigned(ux)) <==>
            && tx.nonce == ux.nonce && tx.gasPrice == ux.gasPrice && tx.gas == ux.gas && tx.value == ux.value
            && tx.storageLimit == ux.storageLimit && tx.epochHeight == ux.epochHeight && tx.chainId == ux.chainId
            && tx.data == ux.data
            && (tx.kind == MessageCall <==> ux.kind == MessageCall)
            && (tx.kind == MessageCall ==> tx.receiveAddress == ux.receiveAddress)
  {
    hide Encode, MinBytes, RlpRoundTrip.Readable;
    if Encode(Unsigned(tx)) == Encode(Unsigned(ux)) {
      UnsignedFits(tx);
      UnsignedFits(ux);
      RlpRoundTrip.EncodeInjective(Unsigned(tx), Unsigned(ux));
      var f, g := Fields(tx), Fields(ux);
      assert forall i :: 0 <= i < 9 ==> Leaves(f)[i] == Leaf(f[i]) && Leaves(g)[i] == Leaf(g[i]);
      assert f[0] == g[0] && f[1] == g[1] && f[2] == g[2] && f[3] == g[3] && f[4] == g[4];
      assert f[5] == g[5] && f[6] == g[6] && f[7] == g[7] && f[8] == g[8];
      MinBytesInjective(tx.nonce, ux.nonce);
      MinBytesInjective(tx.gasPrice, ux.gasPrice);
      MinBytesInjective(tx.gas, ux.gas);
      MinBytesInjective(tx.value, ux.value);
      MinBytesInjective(tx.storageLimit, ux.storageLimit);
      MinBytesInjective(tx.epochHeight, ux.epochHeight);
      MinBytesInjective(tx.chainId, ux.chainId);
    }
  }

  lemma MinBytesInjective(m: nat, n: nat)
    ensures MinBytes(m) == MinBytes(n) ==> m == n
  {
    MinBytesValue(m);
    MinBytesValue(n);
  }
}
