/** READ (RFC 1813, section 3.3.6): one reply, and what a client gets that reads
    a file from start to end. */
module SequentialRead {
  import opened Wrappers
  import opened Xdr
  import opened XdrRpc
  import opened XdrNfs
  import opened NfsReply
  import opened FileBytes

  datatype ReadRequest = ReadRequest(
    xid: u32, handle: Option<Stat>, attr: Option<Fattr3>, access: Access,
    offset: u64, count: u32, maxRead: u32, file: Result<FileData, Stat>, overflowChecks: bool)

  function Clamped(count: u32, maxRead: u32): u32 {
    Min(count, Min(maxRead, MAX_BLOCK_SIZE))
  }

  /** Reads a range of a file on disk; None when it stops. */
  method ReadFile(file: FileData, offset: u64, count: u32, overflowChecks: bool) returns (r: Option<Chunk>)
    ensures r.None? <==> Stops(file, offset, count, overflowChecks)
    ensures r.Some? ==> r.value == ReadRange(file, offset, count)
  {
    var start := offset;
    var end := offset + count;
    if end >= 0x1_0000_0000_0000_0000 {
      if overflowChecks {
        return None;
      }
      end := end - 0x1_0000_0000_0000_0000;
    }
    var eof := end >= |file|;
    if start >= |file| {
      start := |file|;
    }
    if end > |file| {
      end := |file|;
    }
    if end < start {
      return None;
    }
    r := Some(Chunk(file[start..end], eof));
  }

  // ---- replies -----------------------------------------------------------

  function DataReply(xid: u32, attr: Option<Fattr3>, chunk: Chunk): bytes
    requires |chunk.data| < 0x1_0000_0000
  {
    EncMsg(SuccessReply(xid)) + (EncU32(StatNumber(Ok3)) + (EncPostOpAttr(attr)
      + (EncU32(|chunk.data|) + (EncBool(chunk.eof) + EncOpaque(chunk.data)))))
  }

  /** The reply's bytes; None when the handler stops and no reply is made. */
  function ReplyBytes(q: ReadRequest): Option<bytes> {
    if q.handle.Some? then Some(ErrorReply(q.xid, q.handle.value, None))
    else if q.access.Denied? then Some(ErrorReply(q.xid, Acces3, q.attr))
    else if q.access.Refused? then Some(ErrorReply(q.xid, q.access.stat, q.attr))
    else if q.file.Error? then Some(ErrorReply(q.xid, q.file.error, q.attr))
    else if Stops(q.file.value, q.offset, Clamped(q.count, q.maxRead), q.overflowChecks) then None
    else Some(DataReply(q.xid, q.attr, ReadRange(q.file.value, q.offset, Clamped(q.count, q.maxRead))))
  }

  /** The handler; `replied` is false when it stops. */
  method NfsProcRead(q: ReadRequest, output: Writer) returns (replied: bool)
    modifies output
    ensures replied == ReplyBytes(q).Some?
    ensures output.data == old(output.data) + if replied then ReplyBytes(q).value else []
  {
    if q.handle.Some? {
      WriteError(q.xid, q.handle.value, None, output);
      return true;
    }
    var count := Clamped(q.count, q.maxRead);
    match q.access {
      case Granted =>
      case Denied =>
        WriteError(q.xid, Acces3, q.attr, output);
        return true;
      case Refused(stat) =>
        WriteError(q.xid, stat, q.attr, output);
        return true;
    }
    if q.file.Error? {
      WriteError(q.xid, q.file.error, q.attr, output);
      return true;
    }
    var chunk := ReadFile(q.file.value, q.offset, count, q.overflowChecks);
    if chunk.None? {
      assert output.data + [] == output.data;
      return false;
    }
    WriteData(q.xid, q.attr, chunk.value, output);
    return true;
  }

  method WriteData(xid: u32, attr: Option<Fattr3>, chunk: Chunk, output: Writer)
    requires |chunk.data| < 0x1_0000_0000
    modifies output
    ensures output.data == old(output.data) + DataReply(xid, attr, chunk)
  {
    var head := EncMsg(SuccessReply(xid));
    var tail := EncU32(|chunk.data|) + (EncBool(chunk.eof) + EncOpaque(chunk.data));
    ghost var start := output.data;
    Appended3(start, head, EncU32(StatNumber(Ok3)), EncPostOpAttr(attr));
    Regroup2(start, head + (EncU32(StatNumber(Ok3)) + EncPostOpAttr(attr)), tail);
    Regroup3(head, EncU32(StatNumber(Ok3)), EncPostOpAttr(attr), tail);
    output.WriteAll(head);
    output.WriteU32(StatNumber(Ok3));
    output.WriteAll(EncPostOpAttr(attr));
    Appended3(output.data, EncU32(|chunk.data|), EncBool(chunk.eof), EncOpaque(chunk.data));
    output.WriteU32(|chunk.data|);
    output.WriteBool(chunk.eof);
    output.WriteOpaque(chunk.data);
  }

  // ---- the client --------------------------------------------------------

  datatype ReadResult = ReadResult(xid: u32, attr: Option<Fattr3>, count: u32, chunk: Chunk)

  /** An accepted reply with status OK, decoded as its client would. */
  function DecReadReply(s: bytes): Parse<ReadResult> {
    var (msg, s1) :- DecMsg(s);
    var (stat, s2) :- DecU32(s1);
    if msg != SuccessReply(msg.xid) || stat != StatNumber(Ok3) then None
    else
      var (attr, s3) :- DecPostOpAttr(s2);
      var (count, s4) :- DecU32(s3);
      var (eof, s5) :- DecBool(s4);
      var (data, s6) :- DecOpaque(s5);
      Some((ReadResult(msg.xid, attr, count, Chunk(data, eof)), s6))
  }

  lemma DataReplyDecodes(xid: u32, attr: Option<Fattr3>, chunk: Chunk, rest: bytes)
    requires |chunk.data| <= MAX_XDR_OPAQUE_LENGTH
    ensures DecReadReply(DataReply(xid, attr, chunk) + rest)
         == Some((ReadResult(xid, attr, |chunk.data|, chunk), rest))
  {
    var msg := SuccessReply(xid);
    var n := EncU32(|chunk.data|);
    var t5 := EncOpaque(chunk.data) + rest;
    var t4 := EncBool(chunk.eof) + t5;
    var t3 := n + t4;
    var t2 := EncPostOpAttr(attr) + t3;
    var t1 := EncU32(StatNumber(Ok3)) + t2;
    var tail := n + (EncBool(chunk.eof) + EncOpaque(chunk.data));
    Regroup4(EncMsg(msg), EncU32(StatNumber(Ok3)), EncPostOpAttr(attr), tail, rest);
    Regroup3(n, EncBool(chunk.eof), EncOpaque(chunk.data), rest);
    MsgRoundTrip(msg, t1);
    U32RoundTrip(StatNumber(Ok3), t2);
    PostOpAttrRoundTrip(attr, t3);
    U32RoundTrip(|chunk.data|, t4);
    BoolRoundTrip(chunk.eof, t5);
    OpaqueRoundTrip(chunk.data, rest);
  }

  /** The request gets as far as reading `file`. */
  predicate Readable(q: ReadRequest, file: FileData) {
    q.handle.None? && q.access.Granted? && q.file == Ok(file)
  }

  /** The chunk a client takes from the reply to its request `xid`. */
  function Accepted(xid: u32, reply: bytes): Option<Chunk> {
    var (result, rest) :- DecReadReply(reply);
    if result.xid == xid && result.count == |result.chunk.data| && rest == [] then Some(result.chunk) else None
  }

  lemma AcceptedData(xid: u32, attr: Option<Fattr3>, chunk: Chunk)
    requires |chunk.data| <= MAX_XDR_OPAQUE_LENGTH
    ensures Accepted(xid, DataReply(xid, attr, chunk)) == Some(chunk)
  {
    DataReplyDecodes(xid, attr, chunk, []);
    assert DataReply(xid, attr, chunk) + [] == DataReply(xid, attr, chunk);
  }

  function At(q: ReadRequest, offset: u64, count: u32): ReadRequest {
    q.(offset := offset, count := count)
  }

  /** What a client gets from one read: the reply's bytes, decoded. */
  function Fetched(q: ReadRequest, offset: u64, count: u32): Option<Chunk> {
    var reply :- ReplyBytes(At(q, offset, count));
    Accepted(q.xid, reply)
  }

  /** The bytes up to `count` from `offset`, or fewer at the end of the file. */
  function Upto(file: bytes, offset: nat, count: nat): (r: bytes)
    requires offset <= |file|
    ensures |r| == Min(count, |file| - offset)
  {
    file[offset..offset + Min(count, |file| - offset)]
  }

  /** The bytes of a read of at most `count` from `offset`, within the file. */
  function Next(file: bytes, offset: nat, count: nat): Chunk
    requires offset <= |file|
  {
    Chunk(Upto(file, offset, count), offset + count >= |file|)
  }

  lemma ReplyWithin(q: ReadRequest, file: FileData, offset: u64, count: u32)
    requires Readable(q, file) && offset <= |file|
    ensures ReplyBytes(At(q, offset, count))
      == Some(DataReply(q.xid, q.attr, Next(file, offset, Clamped(count, q.maxRead))))
  {
    EofIff(file, offset, Clamped(count, q.maxRead));
  }

  /** Any read that starts within the file is answered with exactly the range's
      bytes, at most the server's maximum, and eof exactly if they reach the end. */
  lemma FetchedIsNext(q: ReadRequest, file: FileData, offset: u64, count: u32)
    requires Readable(q, file) && offset <= |file|
    ensures Fetched(q, offset, count) == Some(Next(file, offset, Clamped(count, q.maxRead)))
  {
    ReplyWithin(q, file, offset, count);
    AcceptedData(q.xid, q.attr, Next(file, offset, Clamped(count, q.maxRead)));
  }

  datatype Transfer = Transfer(data: bytes, done: bool)

  /** How a client gets the chunk at an offset. */
  type Fetch = (u64, u32) -> Option<Chunk>

  function FetchOf(q: ReadRequest): Fetch {
    (offset: u64, count: u32) => Fetched(q, offset, count)
  }

  /** A client that asks for `wants[0]`, `wants[1]`, … bytes, each time from where
      the last reply ended, until eof or until it gives up. */
  function Download(fetch: Fetch, offset: nat, wants: seq<u32>): Transfer
    decreases wants
  {
    if wants == [] || offset >= 0x1_0000_0000_0000_0000 then Transfer([], false)
    else
      var chunk := fetch(offset, wants[0]);
      if chunk.None? then Transfer([], false)
      else if chunk.value.eof then Transfer(chunk.value.data, true)
      else
        var rest := Download(fetch, offset + |chunk.value.data|, wants[1..]);
        Transfer(chunk.value.data + rest.data, rest.done)
  }

  /** The bytes asked for, as the server clamps them. */
  function Asked(wants: seq<u32>, maxRead: u32): nat {
    if wants == [] then 0 else Clamped(wants[0], maxRead) + Asked(wants[1..], maxRead)
  }

  ghost predicate Serves(fetch: Fetch, file: FileData, maxRead: u32) {
    forall offset: u64, count: u32 | offset <= |file| ::
      fetch(offset, count) == Some(Next(file, offset, Clamped(count, maxRead)))
  }

  lemma UptoJoins(file: bytes, offset: nat, n: nat, more: nat)
    requires offset + n <= |file|
    ensures Upto(file, offset, n) + Upto(file, offset + n, more) == Upto(file, offset, n + more)
  {
  }

  lemma {:induction false} DownloadServed(fetch: Fetch, file: FileData, maxRead: u32, offset: nat, wants: seq<u32>)
    requires Serves(fetch, file, maxRead) && offset <= |file|
    ensures var t := Download(fetch, offset, wants); var asked := Asked(wants, maxRead);
      t.data == Upto(file, offset, asked) && (t.done <==> wants != [] && offset + asked >= |file|)
    decreases wants
  {
    if wants != [] {
      var n := Clamped(wants[0], maxRead);
      assert fetch(offset, wants[0]) == Some(Next(file, offset, n));
      if offset + n < |file| {
        DownloadServed(fetch, file, maxRead, offset + n, wants[1..]);
        UptoJoins(file, offset, n, Asked(wants[1..], maxRead));
      }
    }
  }

  /** Whatever sizes a client asks for, it gets exactly the file's next bytes, and
      it is told that it is done if and only if it made a request and asked for at
      least what was left. */
  lemma DownloadIff(q: ReadRequest, file: FileData, offset: nat, wants: seq<u32>)
    requires Readable(q, file) && offset <= |file|
    ensures var t := Download(FetchOf(q), offset, wants); var left := |file| - offset;
      && t.data == Upto(file, offset, Asked(wants, q.maxRead))
      && (t.done <==> wants != [] && Asked(wants, q.maxRead) >= left)
  {
    var fetch := FetchOf(q);
    forall offset: u64, count: u32 | offset <= |file|
      ensures fetch(offset, count) == Some(Next(file, offset, Clamped(count, q.maxRead)))
    {
      FetchedIsNext(q, file, offset, count);
    }
    DownloadServed(fetch, file, q.maxRead, offset, wants);
  }

  lemma {:induction false} AskedAtLeast(wants: seq<u32>, maxRead: u32)
    requires maxRead > 0 && forall i | 0 <= i < |wants| :: wants[i] > 0
    ensures Asked(wants, maxRead) >= |wants|
  {
    if wants != [] {
      assert wants[0] > 0;
      AskedAtLeast(wants[1..], maxRead);
    }
  }

  /** Reading from 0 with any positive sizes rebuilds the file, within one request
      per byte. */
  lemma DownloadRebuildsFile(q: ReadRequest, file: FileData, wants: seq<u32>)
    requires Readable(q, file) && q.maxRead > 0
    requires |wants| >= Max(1, |file|) && forall i | 0 <= i < |wants| :: wants[i] > 0
    ensures Download(FetchOf(q), 0, wants) == Transfer(file, true)
  {
    DownloadIff(q, file, 0, wants);
    AskedAtLeast(wants, q.maxRead);
    assert file[0..|file|] == file;
  }
}
