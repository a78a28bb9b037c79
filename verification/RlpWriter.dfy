/** RLPStream: the writer that back-patches list headers (libdevcore/RLP.cpp, libdevcore/RLP.h). */
module RlpWriter {
  import opened Numbers
  import opened RlpTree

  /** An open list: how many items are still due, and where its payload starts in the output. */
  datatype Frame = Frame(remaining: nat, start: nat)

  /** The fields of an RLPStream. */
  datatype Stream = Stream(out: seq<byte>, stack: seq<Frame>)

  /** The number of `unsigned` values. */
  const UNSIGNED_COUNT: nat := 0x1_0000_0000

  const EMPTY := Stream([], [])

  /** Every open list still expects items; payload starts do not decrease and lie inside the output. */
  ghost predicate WellFormed(s: Stream) {
    && (forall i :: 0 <= i < |s.stack| ==> s.stack[i].remaining > 0 && s.stack[i].start <= |s.out|)
    && (forall i, j :: 0 <= i < j < |s.stack| ==> s.stack[i].start <= s.stack[j].start)
  }

  /** `noteAppended(itemCount)`: count items into the innermost open list; a list they complete is one item of the next. */
  ghost function Noted(s: Stream, itemCount: nat): Result<Stream>
    requires WellFormed(s)
    decreases |s.stack|
  {
    if itemCount == 0 || s.stack == [] then Success(s)
    else
      var last := |s.stack| - 1;
      var top := s.stack[last];
      if top.remaining < itemCount then Failure(ItemCountTooLarge)
      else if top.remaining > itemCount then
        Success(s.(stack := s.stack[last := Frame(top.remaining - itemCount, top.start)]))
      else if |s.out| - top.start >= SIZE_T_COUNT then Failure(TooLargeForRLP)
      else Noted(Stream(s.out[..top.start] + EncodeList(s.out[top.start..]), s.stack[..last]), 1)
  }

  /** The innermost open list counted down, or closed. */
  lemma TopChanges(s: Stream)
    requires WellFormed(s) && s.stack != []
    ensures var last := |s.stack| - 1; var top := s.stack[last];
            && top.remaining > 0 && top.start <= |s.out|
            && (forall n: nat :: n > 0 ==> WellFormed(s.(stack := s.stack[last := Frame(n, top.start)])))
            && (forall out: seq<byte> :: |out| >= |s.out| ==> WellFormed(Stream(out, s.stack[..last])))
  {
  }

  /** Counting items when the payload of the innermost open list is `payload`. */
  lemma NotedTop(before: seq<byte>, payload: seq<byte>, outer: seq<Frame>, remaining: nat, count: nat)
    requires WellFormed(Stream(before + payload, outer + [Frame(remaining, |before|)])) && count > 0
    ensures WellFormed(Stream(before, outer))
    ensures Noted(Stream(before + payload, outer + [Frame(remaining, |before|)]), count) ==
            if remaining < count then Failure(ItemCountTooLarge)
            else if remaining > count then Success(Stream(before + payload, outer + [Frame(remaining - count, |before|)]))
            else if |payload| >= SIZE_T_COUNT then Failure(TooLargeForRLP)
            else Noted(Written(Stream(before, outer), EncodeList(payload)), 1)
  {
    hide EncodeList;
    var stack := outer + [Frame(remaining, |before|)];
    assert forall i :: 0 <= i < |outer| ==> outer[i] == stack[i] && stack[i].start <= stack[|outer|].start;
    assert stack[..|outer|] == outer;
    assert (before + payload)[..|before|] == before && (before + payload)[|before|..] == payload;
    if remaining > count {
      assert stack[|outer| := Frame(remaining - count, |before|)] == outer + [Frame(remaining - count, |before|)];
    }
  }

  ghost function Written(s: Stream, bytes: seq<byte>): Stream {
    s.(out := s.out + bytes)
  }

  /** `append(bytesConstRef)` of `d`; no size_t is so large that the length of its length overflows the header byte. */
  ghost function DataAppended(s: Stream, d: seq<byte>): Result<Stream>
    requires WellFormed(s)
  {
    if ByteLength(|d|) > 72 then Failure(TooLargeForRLP) else Noted(Written(s, EncodeData(d)), 1)
  }

  /** `appendRaw(bytes, count)`. */
  ghost function RawAppended(s: Stream, bytes: seq<byte>, count: nat): Result<Stream>
    requires WellFormed(s)
  {
    Noted(Written(s, bytes), count)
  }

  /** `appendList(bytesConstRef)`: a list whose payload is already serialised. */
  ghost function ListAppended(s: Stream, payload: seq<byte>): Result<Stream>
    requires WellFormed(s)
  {
    if |payload| >= SIZE_T_COUNT then Failure(TooLargeForRLP) else Noted(Written(s, EncodeList(payload)), 1)
  }

  /** `appendList(size_t)`: an empty list is written at once, any other is opened. */
  ghost function ListOpened(s: Stream, items: nat): Result<Stream>
    requires WellFormed(s)
  {
    if items == 0 then ListAppended(s, []) else Success(s.(stack := s.stack + [Frame(items, |s.out|)]))
  }

  /** A byte string without its leading zero bytes. */
  function Compacted(d: seq<byte>): seq<byte> {
    if d != [] && d[0] == 0 then Compacted(d[1..]) else d
  }

  ghost predicate Agrees(r: Outcome, before: Stream, after: Stream, expected: Result<Stream>) {
    match expected
    case Success(s) => r == Pass && after == s
    case Failure(e) => r == Fail(e)
  }

  /** `*(b--) = (uint8_t)v; v >>= 8` until v is zero. */
  method StoreBackwards(buf: seq<byte>, b: nat, val: nat) returns (r: seq<byte>)
    requires ByteLength(val) <= b + 1 <= |buf|
    ensures r == buf[..b + 1 - ByteLength(val)] + MinBytes(val) + buf[b + 1..]
  {
    r := buf;
    var v, p := val, b;
    ghost var stored: seq<byte> := [];
    while v != 0
      invariant p == b - |stored| && ByteLength(v) <= p + 1
      invariant ByteLength(v) + |stored| == ByteLength(val) && MinBytes(v) + stored == MinBytes(val)
      invariant r == buf[..p + 1] + stored + buf[b + 1..]
      decreases v
    {
      QuotLiteral(v);
      r := r[p := v % 256];
      stored := [v % 256] + stored;
      v, p := v / 256, p - 1;
    }
  }

  /** Writing a header into the gap that the moved payload left gives the three parts in order. */
  lemma HeaderInPlace(before: seq<byte>, length: seq<byte>, payload: seq<byte>, buf: seq<byte>, first: byte)
    requires |buf| == |before| + 1 + |length| + |payload|
    requires buf[..|before|] == before && buf[|before| + 1 + |length|..] == payload
    ensures buf[|before| := first][..|before| + 1] + length + buf[|before| := first][|before| + |length| + 1..]
         == before + ([first] + length + payload)
    ensures length == [] ==> buf[|before| := first] == before + ([first] + payload)
  {
    var b := buf[|before| := first];
    assert b[..|before| + 1] == before + [first];
    assert b[|before| + |length| + 1..] == payload;
  }

  /** A header with its length, in the gap that the moved payload left. */
  method LongHeaderInPlace(buf: seq<byte>, p: nat, s: nat, brs: nat, ghost payload: seq<byte>) returns (r: seq<byte>)
    requires brs == ByteLength(s) && LIST_IND_LEN_ZERO + brs <= 0xff
    requires |buf| == p + 1 + brs + |payload| && buf[p + 1 + brs..] == payload
    ensures r == buf[..p] + ([LIST_IND_LEN_ZERO + brs] + MinBytes(s) + payload)
  {
    hide MinBytes, ByteLength;
    HeaderInPlace(buf[..p], MinBytes(s), payload, buf, LIST_IND_LEN_ZERO + brs);
    r := buf[p := LIST_IND_LEN_ZERO + brs];
    r := StoreBackwards(r, p + brs, s);
  }

  /** A header of one byte, in its place. */
  method ShortHeaderInPlace(buf: seq<byte>, p: nat, s: nat, ghost payload: seq<byte>) returns (r: seq<byte>)
    requires s < LIST_IMM_LEN_COUNT
    requires |buf| == p + 1 + |payload| && buf[p + 1..] == payload
    ensures r == buf[..p] + ([LIST_START + s] + payload)
  {
    HeaderInPlace(buf[..p], [], payload, buf, LIST_START + s);
    r := buf[p := LIST_START + s];
  }

  /** The two forms of a list. */
  lemma ListForms(payload: seq<byte>)
    ensures var s := |payload|; var brs := ByteLength(s);
            && (s < LIST_IMM_LEN_COUNT ==> EncodeList(payload) == [LIST_START + s] + payload)
            && (s >= LIST_IMM_LEN_COUNT && LIST_IND_LEN_ZERO + brs <= 0xff ==>
                  brs > 0 && EncodeList(payload) == [LIST_IND_LEN_ZERO + brs] + MinBytes(s) + payload)
  {
    hide MinBytes, ByteLength;
    ByteLengthAtMost(|payload|, 0);
    assert Pow(256, 0) == 1;
  }

  /** Either header, or none where the length of the length does not fit. */
  method HeaderWritten(buf: seq<byte>, p: nat, s: nat, brs: nat, ghost payload: seq<byte>) returns (r: Outcome, out: seq<byte>)
    requires brs == ByteLength(s) && s == |payload|
    requires var gap := if s < LIST_IMM_LEN_COUNT then 1 else 1 + brs;
             |buf| == p + gap + s && buf[p + gap..] == payload
    ensures r == (if s >= SIZE_T_COUNT then Fail(TooLargeForRLP) else Pass) && |out| == |buf|
    ensures r.Pass? ==> out == buf[..p] + EncodeList(payload)
  {
    hide MinBytes, ByteLength, EncodeList;
    EightBytes(s);
    ListForms(payload);
    if s < LIST_IMM_LEN_COUNT {
      out := ShortHeaderInPlace(buf, p, s, payload);
    } else if LIST_IND_LEN_ZERO + brs <= 0xff {
      out := LongHeaderInPlace(buf, p, s, brs, payload);
    } else {
      return Fail(TooLargeForRLP), buf;
    }
    return Pass, out;
  }

  class RLPStream {
    var m_out: seq<byte>
    var m_listStack: seq<Frame>

    ghost function State(): Stream
      reads this
    {
      Stream(m_out, m_listStack)
    }

    ghost predicate Valid()
      reads this
    {
      WellFormed(State())
    }

    constructor ()
      ensures Valid() && State() == EMPTY
    {
      m_out, m_listStack := [], [];
    }

    /** Resize and move the bytes from `p` on to the right by `size`. */
    method MakeGap(p: nat, size: nat)
      requires p <= |m_out|
      modifies this`m_out
      ensures |m_out| == |old(m_out)| + size
      ensures m_out[..p] == old(m_out)[..p] && m_out[p + size..] == old(m_out)[p..]
    {
      var os := |m_out|;
      m_out := m_out + seq(size, _ => 0);
      m_out := m_out[..p + size] + m_out[p..os];
    }

    /** Close the list whose payload starts at `p`: make room, move the payload right, write the header. */
    method InsertListHeader(p: nat) returns (r: Outcome)
      requires p <= |m_out|
      modifies this`m_out
      ensures r == if |old(m_out)| - p >= SIZE_T_COUNT then Fail(TooLargeForRLP) else Pass
      ensures r.Pass? ==> m_out == old(m_out[..p]) + EncodeList(old(m_out[p..]))
      ensures |m_out| >= |old(m_out)|
    {
      hide MinBytes, ByteLength, EncodeList;
      var s := |m_out| - p;
      var brs := BytesRequired(s);
      ghost var payload := m_out[p..];
      var encodeSize := if s < LIST_IMM_LEN_COUNT then 1 else 1 + brs;
      MakeGap(p, encodeSize);
      r, m_out := HeaderWritten(m_out, p, s, brs, payload);
    }

    method NoteAppended(itemCount: nat) returns (r: Outcome)
      requires Valid()
      modifies this
      ensures Valid()
      ensures Agrees(r, old(State()), State(), Noted(old(State()), itemCount))
    {
      hide EncodeList, WellFormed;
      if itemCount == 0 {
        return Pass;
      }
      var count := itemCount;
      while m_listStack != []
        invariant Valid() && count > 0
        invariant Noted(State(), count) == Noted(old(State()), itemCount)
        decreases |m_listStack|
      {
        TopChanges(State());
        var last := |m_listStack| - 1;
        var top := m_listStack[last];
        if top.remaining < count {
          return Fail(ItemCountTooLarge);
        }
        if top.remaining - count != 0 {
          m_listStack := m_listStack[last := Frame(top.remaining - count, top.start)];
          return Pass;
        }
        m_listStack := m_listStack[..last];
        r := InsertListHeader(top.start);
        if r.Fail? {
          return;
        }
        count := 1;
      }
      return Pass;
    }

    method AppendRaw(bytes: seq<byte>, itemCount: nat) returns (r: Outcome)
      requires Valid()
      modifies this
      ensures Valid()
      ensures Agrees(r, old(State()), State(), RawAppended(old(State()), bytes, itemCount))
    {
      m_out := m_out + bytes;
      r := NoteAppended(itemCount);
    }

    /** Push `i` as `br` big-endian bytes. */
    method PushInt(i: nat, br: nat)
      requires 0 < br == ByteLength(i)
      modifies this`m_out
      ensures m_out == old(m_out) + MinBytes(i)
    {
      ghost var before := m_out;
      m_out := m_out + seq(br, _ => 0);
      m_out := StoreBackwards(m_out, |m_out| - 1, i);
      assert m_out == before + MinBytes(i);
    }

    /** Push the header byte and the length of a payload of `count` bytes. */
    method PushCount(count: nat, base: nat) returns (r: Outcome)
      requires count >= 56
      requires base == DATA_IND_LEN_ZERO || base == LIST_IND_LEN_ZERO
      modifies this`m_out
      ensures r == if ByteLength(count) + base > 0xff then Fail(TooLargeForRLP) else Pass
      ensures r.Pass? ==> m_out == old(m_out) + Header(base - 55, count)
      ensures r.Fail? ==> m_out == old(m_out)
    {
      hide MinBytes, ByteLength;
      ByteLengthPositive(count);
      var br := BytesRequired(count);
      if br + base > 0xff {
        return Fail(TooLargeForRLP);
      }
      ghost var before := m_out;
      m_out := m_out + [br + base];
      PushInt(count, br);
      assert m_out == before + ([br + base] + MinBytes(count));
      return Pass;
    }

    method AppendListPayload(payload: seq<byte>) returns (r: Outcome)
      requires Valid()
      modifies this
      ensures Valid()
      ensures Agrees(r, old(State()), State(), ListAppended(old(State()), payload))
    {
      ghost var before := m_out;
      EightBytes(|payload|);
      if |payload| < LIST_IMM_LEN_COUNT {
        m_out := m_out + [|payload| + LIST_START];
      } else {
        :- PushCount(|payload|, LIST_IND_LEN_ZERO);
      }
      Associative(before, Header(LIST_START, |payload|), payload);
      r := AppendRaw(payload, 1);
    }

    method AppendList(items: nat) returns (r: Outcome)
      requires Valid()
      modifies this
      ensures Valid()
      ensures Agrees(r, old(State()), State(), ListOpened(old(State()), items))
    {
      if items != 0 {
        m_listStack := m_listStack + [Frame(items, |m_out|)];
        return Pass;
      } else {
        r := AppendListPayload([]);
      }
    }

    /** The bytes of one string item, before it is counted. */
    method PushData(bytes: seq<byte>) returns (r: Outcome)
      requires Valid()
      modifies this
      ensures Valid() && m_listStack == old(m_listStack)
      ensures r == if ByteLength(|bytes|) > 72 then Fail(TooLargeForRLP) else Pass
      ensures r.Pass? ==> m_out == old(m_out) + EncodeData(bytes)
    {
      ghost var before := m_out;
      if |bytes| == 1 && bytes[0] < DATA_IMM_LEN_START {
        m_out := m_out + [bytes[0]];
        assert bytes == [bytes[0]];
        return Pass;
      }
      if |bytes| < DATA_IMM_LEN_COUNT {
        QuotLiteral(|bytes|);
        m_out := m_out + [|bytes| + DATA_IMM_LEN_START];
      } else {
        :- PushCount(|bytes|, DATA_IND_LEN_ZERO);
      }
      Associative(before, Header(DATA_IMM_LEN_START, |bytes|), bytes);
      r := AppendRaw(bytes, 0);
    }

    method Append(data: seq<byte>, compact: bool) returns (r: Outcome)
      requires Valid()
      modifies this
      ensures Valid()
      ensures Agrees(r, old(State()), State(), DataAppended(old(State()), if compact then Compacted(data) else data))
    {
      var d := 0;
      if compact {
        while d < |data| && data[d] == 0
          invariant 0 <= d <= |data| && Compacted(data[d..]) == Compacted(data)
        {
          d := d + 1;
        }
      }
      :- PushData(data[d..]);
      r := NoteAppended(1);
    }

    /** `append(bigint)`, for numbers whose byte length an `unsigned` can hold; such a length takes at most four bytes. */
    method AppendBigint(i: nat) returns (r: Outcome)
      requires Valid() && ByteLength(i) < UNSIGNED_COUNT
      modifies this
      ensures Valid()
      ensures Agrees(r, old(State()), State(), DataAppended(old(State()), MinBytes(i)))
    {
      hide MinBytes, ByteLength;
      ghost var before := m_out;
      OneByte(i);
      FourBytes(ByteLength(i));
      if i == 0 {
        m_out := m_out + [DATA_IMM_LEN_START];
      } else if i < DATA_IMM_LEN_START {
        m_out := m_out + [i];
      } else {
        var br := BytesRequired(i);
        if br < DATA_IMM_LEN_COUNT {
          m_out := m_out + [br + DATA_IMM_LEN_START];
        } else {
          var brbr := BytesRequired(br);
          m_out := m_out + [DATA_IND_LEN_ZERO + brbr];
          PushInt(br, brbr);
          Associative(before, [DATA_IND_LEN_ZERO + brbr], MinBytes(br));
        }
        assert m_out == before + Header(DATA_IMM_LEN_START, br);
        PushInt(i, br);
        Associative(before, Header(DATA_IMM_LEN_START, br), MinBytes(i));
      }
      assert m_out == before + EncodeData(MinBytes(i));
      r := NoteAppended(1);
    }

    /** `out()`: refused while a list is open. */
    method Out() returns (r: Result<seq<byte>>)
      ensures r == if m_listStack == [] then Success(m_out) else Failure(ListStackNotEmpty)
    {
      if m_listStack != [] {
        return Failure(ListStackNotEmpty);
      }
      return Success(m_out);
    }
  }

  lemma ByteLengthPositive(n: nat)
    ensures n > 0 <==> ByteLength(n) > 0
  {
  }

  lemma FourBytes(n: nat)
    requires n < UNSIGNED_COUNT
    ensures ByteLength(n) <= 4 && (n > 0 ==> ByteLength(n) > 0)
  {
    ByteLengthAtMost(n, 4);
    assert Pow(256, 2) == 0x1_0000;
    PowAdd(256, 2, 2);
  }

  lemma OneByte(i: nat)
    ensures i == 0 ==> MinBytes(i) == []
    ensures 0 < i < 256 ==> MinBytes(i) == [i]
    ensures i >= 256 ==> |MinBytes(i)| > 1
  {
    QuotLiteral(i);
    if 0 < i < 256 {
      assert ByteLength(i / 256) == 0;
    } else if i >= 256 {
      assert ByteLength(i) == 1 + ByteLength(i / 256);
    }
  }
}
