/** Record marking over a byte stream (RFC 5531, section 11): fragments written,
    fragments read back and reassembled into records. */
module RecordMarking {
  import opened Wrappers
  import opened Xdr

  const LAST := 0x8000_0000
  const MAX_FRAGMENT_SIZE := 0x7FFF_FFFF

  // ---- writing -----------------------------------------------------------

  function Header(n: nat, last: bool): u32
    requires n <= MAX_FRAGMENT_SIZE
  {
    if last then n + LAST else n
  }

  /** The bytes write_fragment sends for one message: nothing at all for an empty one. */
  function Record(buf: bytes): bytes {
    if buf == [] then []
    else
      var n := Min(|buf|, MAX_FRAGMENT_SIZE);
      EncU32(Header(n, n >= |buf|)) + (buf[..n] + Record(buf[n..]))
  }

  lemma RecordStep(sent: bytes, buf: bytes)
    requires buf != []
    ensures var n := Min(|buf|, MAX_FRAGMENT_SIZE);
      sent + Record(buf) == ((sent + EncU32(Header(n, n >= |buf|))) + buf[..n]) + Record(buf[n..])
  {
    var n := Min(|buf|, MAX_FRAGMENT_SIZE);
    Regroup(sent, EncU32(Header(n, n >= |buf|)), buf[..n], Record(buf[n..]));
  }

  lemma Regroup(a: bytes, b: bytes, c: bytes, d: bytes)
    ensures a + (b + (c + d)) == ((a + b) + c) + d
    ensures (a + (b + c)) + d == a + (b + (c + d))
  {
  }

  method WriteFragment(socket: Writer, buf: bytes)
    modifies socket
    ensures socket.data == old(socket.data) + Record(buf)
  {
    ghost var start := socket.data;
    var offset := 0;
    while offset < |buf|
      invariant 0 <= offset <= |buf|
      invariant socket.data + Record(buf[offset..]) == start + Record(buf)
    {
      var fragmentSize := Min(|buf| - offset, MAX_FRAGMENT_SIZE);
      var isLast := offset + fragmentSize >= |buf|;
      RecordStep(socket.data, buf[offset..]);
      assert buf[offset..][..fragmentSize] == buf[offset..offset + fragmentSize];
      assert buf[offset..][fragmentSize..] == buf[offset + fragmentSize..];
      socket.WriteU32(Header(fragmentSize, isLast));
      socket.WriteAll(buf[offset..offset + fragmentSize]);
      offset := offset + fragmentSize;
    }
    assert buf[offset..] == [] && socket.data + [] == socket.data;
  }

  // ---- reading -----------------------------------------------------------

  datatype Fault = Eof | TooLong

  datatype Fragment = Fragment(last: bool, buffer: bytes, rest: bytes)

  /** One fragment appended to `buffer`; a record over the limit or a short stream is an error. */
  function ReadOne(stream: bytes, buffer: bytes): (r: Result<Fragment, Fault>)
    ensures r.Ok? ==> |r.value.rest| < |stream|
    ensures r.Ok? ==> |r.value.buffer| <= MAX_RPC_RECORD_LENGTH
  {
    var h := DecU32(stream);
    if h.None? then Error(Eof)
    else
      var (header, body) := h.value;
      var n := header % LAST;
      if |buffer| + n > MAX_RPC_RECORD_LENGTH then Error(TooLong)
      else if n > |body| then Error(Eof)
      else Ok(Fragment(header >= LAST, buffer + body[..n], body[n..]))
  }

  /** What one connection delivers before its read loop breaks, and why it breaks. */
  datatype Session = Session(records: seq<bytes>, fault: Fault)

  function ReadAll(stream: bytes, buffer: bytes): Session
    decreases |stream|
  {
    match ReadOne(stream, buffer)
    case Error(fault) => Session([], fault)
    case Ok(f) =>
      if f.last then
        var later := ReadAll(f.rest, []);
        Session([f.buffer] + later.records, later.fault)
      else ReadAll(f.rest, f.buffer)
  }

  /** The connection's reading side: `submitted` are the records queued so far. */
  class SocketMessageHandler {
    const socket: Reader
    var curFragment: bytes
    var submitted: seq<bytes>

    /** The reassembly buffer is within the record limit. */
    predicate Bounded()
      reads this
    {
      |curFragment| <= MAX_RPC_RECORD_LENGTH
    }

    constructor (socket: Reader)
      ensures this.socket == socket && curFragment == [] && submitted == [] && Bounded()
    {
      this.socket := socket;
      curFragment, submitted := [], [];
    }

    method ReadFragment() returns (r: Result<bool, Fault>)
      requires Bounded()
      modifies this, socket
      ensures Bounded() && submitted == old(submitted)
      ensures match old(ReadOne(socket.data, curFragment))
        case Error(fault) => r == Error(fault)
        case Ok(f) => r == Ok(f.last) && curFragment == f.buffer && socket.data == f.rest
    {
      var header := socket.ReadU32();
      if header.None? {
        return Error(Eof);
      }
      var isLast := header.value >= LAST;
      var length := header.value % LAST;
      if |curFragment| + length > MAX_RPC_RECORD_LENGTH {
        return Error(TooLong);
      }
      var startOffset := |curFragment|;
      curFragment := curFragment + Zeros(length);
      var body := socket.ReadExact(length);
      if body.None? {
        return Error(Eof);
      }
      curFragment := curFragment[..startOffset] + body.value;
      return Ok(isLast);
    }

    method Read() returns (r: Result<(), Fault>)
      requires Bounded()
      modifies this, socket
      ensures Bounded()
      ensures match old(ReadOne(socket.data, curFragment))
        case Error(fault) => r == Error(fault) && submitted == old(submitted)
        case Ok(f) =>
          && r == Ok(()) && socket.data == f.rest
          && submitted == (if f.last then old(submitted) + [f.buffer] else old(submitted))
          && curFragment == (if f.last then [] else f.buffer)
    {
      var isLast := ReadFragment();
      if isLast.Error? {
        return Error(isLast.error);
      }
      if isLast.value {
        submitted := submitted + [curFragment];
        curFragment := [];
      }
      return Ok(());
    }

    /** The read loop of a connection. */
    method Run() returns (fault: Fault)
      requires Bounded()
      modifies this, socket
      ensures Bounded()
      ensures old(ReadAll(socket.data, curFragment)).fault == fault
      ensures submitted == old(submitted) + old(ReadAll(socket.data, curFragment)).records
    {
      ghost var all := ReadAll(socket.data, curFragment);
      while true
        invariant Bounded()
        invariant var s := ReadAll(socket.data, curFragment);
          s.fault == all.fault && submitted + s.records == old(submitted) + all.records
        decreases |socket.data|
      {
        ghost var before := submitted;
        ghost var step := ReadOne(socket.data, curFragment);
        var r := Read();
        if r.Error? {
          return r.error;
        }
        if step.value.last {
          ghost var later := ReadAll(socket.data, []);
          assert before + ([step.value.buffer] + later.records) == submitted + later.records;
        }
      }
    }
  }

  // ---- round trips -------------------------------------------------------

  function WriteMessages(messages: seq<bytes>): bytes {
    if messages == [] then [] else Record(messages[0]) + WriteMessages(messages[1..])
  }

  lemma ReadHeader(n: nat, last: bool, body: bytes, buffer: bytes)
    requires n <= MAX_FRAGMENT_SIZE && n <= |body|
    ensures ReadOne(EncU32(Header(n, last)) + body, buffer)
         == if |buffer| + n > MAX_RPC_RECORD_LENGTH then Error(TooLong)
            else Ok(Fragment(last, buffer + body[..n], body[n..]))
  {
    U32RoundTrip(Header(n, last), body);
  }

  lemma RecordStarts(message: bytes, rest: bytes)
    requires message != []
    ensures var n := Min(|message|, MAX_FRAGMENT_SIZE);
      Record(message) + rest == EncU32(Header(n, n >= |message|)) + (message[..n] + (Record(message[n..]) + rest))
  {
    var n := Min(|message|, MAX_FRAGMENT_SIZE);
    Regroup(EncU32(Header(n, n >= |message|)), message[..n], Record(message[n..]), rest);
  }

  lemma OneFragment(message: bytes, rest: bytes)
    requires 0 < |message| <= MAX_FRAGMENT_SIZE
    ensures Record(message) + rest == EncU32(Header(|message|, true)) + (message + rest)
  {
    RecordStarts(message, rest);
    assert message[..|message|] == message && message[|message|..] == [];
    assert Record([]) + rest == rest;
  }

  lemma TakeFirst(part: bytes, tail: bytes)
    ensures (part + tail)[..|part|] == part && (part + tail)[|part|..] == tail
  {
  }

  /** One fragment, read from a stream that starts with its header and its bytes. */
  lemma ReadPart(part: bytes, last: bool, tail: bytes, buffer: bytes)
    requires |part| <= MAX_FRAGMENT_SIZE
    ensures ReadOne(EncU32(Header(|part|, last)) + (part + tail), buffer)
         == if |buffer| + |part| > MAX_RPC_RECORD_LENGTH then Error(TooLong)
            else Ok(Fragment(last, buffer + part, tail))
  {
    TakeFirst(part, tail);
    ReadHeader(|part|, last, part + tail, buffer);
  }

  lemma ShortRecordRead(message: bytes, rest: bytes)
    requires 0 < |message| <= MAX_FRAGMENT_SIZE
    ensures ReadOne(Record(message) + rest, [])
         == if |message| <= MAX_RPC_RECORD_LENGTH then Ok(Fragment(true, message, rest)) else Error(TooLong)
  {
    OneFragment(message, rest);
    ReadPart(message, true, rest, []);
    assert [] + message == message;
  }

  lemma LongRecordRead(message: bytes, rest: bytes)
    requires |message| > MAX_FRAGMENT_SIZE
    ensures ReadOne(Record(message) + rest, []) == Error(TooLong)
  {
    RecordStarts(message, rest);
    ReadPart(message[..MAX_FRAGMENT_SIZE], false, Record(message[MAX_FRAGMENT_SIZE..]) + rest, []);
  }

  /** A non-empty message within the limit is read back whole; a longer one stops the reader. */
  lemma RecordRead(message: bytes, rest: bytes)
    requires message != []
    ensures ReadOne(Record(message) + rest, [])
         == if |message| <= MAX_RPC_RECORD_LENGTH then Ok(Fragment(true, message, rest)) else Error(TooLong)
  {
    if |message| <= MAX_FRAGMENT_SIZE {
      ShortRecordRead(message, rest);
    } else {
      LongRecordRead(message, rest);
    }
  }

  /** The messages that reach the peer: empty ones vanish, an oversize one ends the connection. */
  function Delivered(messages: seq<bytes>): seq<bytes> {
    if messages == [] || |messages[0]| > MAX_RPC_RECORD_LENGTH then []
    else (if messages[0] == [] then [] else [messages[0]]) + Delivered(messages[1..])
  }

  predicate Deliverable(messages: seq<bytes>) {
    forall i | 0 <= i < |messages| :: 0 < |messages[i]| <= MAX_RPC_RECORD_LENGTH
  }

  predicate Oversize(messages: seq<bytes>) {
    messages != [] && (|messages[0]| > MAX_RPC_RECORD_LENGTH || Oversize(messages[1..]))
  }

  /** What is read from the concatenated outputs of write_fragment, for any messages. */
  lemma {:induction false} StreamRead(messages: seq<bytes>)
    ensures ReadAll(WriteMessages(messages), [])
         == Session(Delivered(messages), if Oversize(messages) then TooLong else Eof)
  {
    if messages != [] {
      var rest := WriteMessages(messages[1..]);
      StreamRead(messages[1..]);
      if messages[0] == [] {
        assert WriteMessages(messages) == rest;
      } else {
        RecordRead(messages[0], rest);
      }
    }
  }

  lemma {:induction false} DeliveredCount(messages: seq<bytes>)
    ensures |Delivered(messages)| <= |messages|
    ensures Delivered(messages) == messages <==> Deliverable(messages)
    ensures |Delivered(messages)| == |messages| ==> Deliverable(messages)
  {
    if messages != [] {
      DeliveredCount(messages[1..]);
      assert messages == [messages[0]] + messages[1..];
      assert Deliverable(messages) <==> 0 < |messages[0]| <= MAX_RPC_RECORD_LENGTH && Deliverable(messages[1..]) by {
        assert forall i | 0 < i < |messages| :: messages[i] == messages[1..][i - 1];
        if Deliverable(messages) {
          assert 0 < |messages[0]| <= MAX_RPC_RECORD_LENGTH;
        }
      }
    }
  }

  /** The stream gives the same messages back exactly when none is empty or over the record limit. */
  lemma RoundTripIff(messages: seq<bytes>)
    ensures ReadAll(WriteMessages(messages), []).records == messages <==> Deliverable(messages)
  {
    StreamRead(messages);
    DeliveredCount(messages);
  }

  // ---- any split of a record ---------------------------------------------

  function Join(parts: seq<bytes>): bytes {
    if parts == [] then [] else parts[0] + Join(parts[1..])
  }

  /** A record sent as the given fragments, empty ones included. */
  function Split(parts: seq<bytes>): bytes
    requires forall i | 0 <= i < |parts| :: |parts[i]| <= MAX_FRAGMENT_SIZE
  {
    if parts == [] then []
    else EncU32(Header(|parts[0]|, |parts| == 1)) + (parts[0] + Split(parts[1..]))
  }

  lemma FirstFragment(parts: seq<bytes>, buffer: bytes, rest: bytes)
    requires parts != [] && forall i | 0 <= i < |parts| :: |parts[i]| <= MAX_FRAGMENT_SIZE
    ensures ReadOne(Split(parts) + rest, buffer)
         == if |buffer| + |parts[0]| > MAX_RPC_RECORD_LENGTH then Error(TooLong)
            else Ok(Fragment(|parts| == 1, buffer + parts[0], Split(parts[1..]) + rest))
  {
    Regroup3(EncU32(Header(|parts[0]|, |parts| == 1)), parts[0], Split(parts[1..]), rest);
    ReadPart(parts[0], |parts| == 1, Split(parts[1..]) + rest, buffer);
  }

  lemma ReadAllStep(stream: bytes, buffer: bytes, step: Result<Fragment, Fault>)
    requires ReadOne(stream, buffer) == step
    ensures ReadAll(stream, buffer) ==
      match step
      case Error(fault) => Session([], fault)
      case Ok(f) =>
        if f.last then Session([f.buffer] + ReadAll(f.rest, []).records, ReadAll(f.rest, []).fault)
        else ReadAll(f.rest, f.buffer)
  {
  }

  lemma JoinFirst(parts: seq<bytes>, buffer: bytes)
    requires parts != []
    ensures buffer + Join(parts) == (buffer + parts[0]) + Join(parts[1..])
    ensures |Join(parts)| == |parts[0]| + |Join(parts[1..])|
    ensures |parts| == 1 ==> Join(parts) == parts[0]
  {
  }

  /** What a session that starts with this record amounts to. */
  function Reassembled(record: bytes, rest: bytes): Session {
    if |record| <= MAX_RPC_RECORD_LENGTH
    then Session([record] + ReadAll(rest, []).records, ReadAll(rest, []).fault)
    else Session([], TooLong)
  }

  lemma LastPart(parts: seq<bytes>, buffer: bytes, rest: bytes)
    requires |parts| == 1 && |parts[0]| <= MAX_FRAGMENT_SIZE
    ensures ReadAll(Split(parts) + rest, buffer) == Reassembled(buffer + Join(parts), rest)
  {
    FirstFragment(parts, buffer, rest);
    JoinFirst(parts, buffer);
    assert Split(parts[1..]) + rest == rest;
    ReadAllStep(Split(parts) + rest, buffer, ReadOne(Split(parts) + rest, buffer));
  }

  /** However a record is split it reassembles to the same bytes, and it is
      rejected exactly when the whole is over the limit. */
  lemma {:induction false} SplitReassembles(parts: seq<bytes>, buffer: bytes, rest: bytes)
    requires parts != [] && forall i | 0 <= i < |parts| :: |parts[i]| <= MAX_FRAGMENT_SIZE
    requires |buffer| <= MAX_RPC_RECORD_LENGTH
    ensures ReadAll(Split(parts) + rest, buffer) == Reassembled(buffer + Join(parts), rest)
  {
    if |parts| == 1 {
      LastPart(parts, buffer, rest);
    } else {
      FirstFragment(parts, buffer, rest);
      JoinFirst(parts, buffer);
      ReadAllStep(Split(parts) + rest, buffer, ReadOne(Split(parts) + rest, buffer));
      if |buffer| + |parts[0]| <= MAX_RPC_RECORD_LENGTH {
        SplitReassembles(parts[1..], buffer + parts[0], rest);
      }
    }
  }

  /** No delivered record exceeds the limit, whatever the stream holds. */
  lemma {:induction false} RecordsBounded(stream: bytes, buffer: bytes)
    ensures forall i | 0 <= i < |ReadAll(stream, buffer).records| ::
      |ReadAll(stream, buffer).records[i]| <= MAX_RPC_RECORD_LENGTH
    decreases |stream|
  {
    match ReadOne(stream, buffer)
    case Error(_) =>
    case Ok(f) => RecordsBounded(f.rest, if f.last then [] else f.buffer);
  }
}
