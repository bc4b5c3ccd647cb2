/** What a client reads from the reply to READ. */
module ReadAnswers {
  import opened Wrappers
  import opened Xdr
  import opened XdrRpc
  import opened XdrNfs
  import opened NfsReply
  import opened FileBytes
  import opened SequentialRead

  /** The bytes a request is for: its count, the server's maximum or 4 MiB, whichever is least. */
  function Wanted(q: ReadRequest): nat {
    if q.count <= q.maxRead && q.count <= 4_194_304 then q.count
    else if q.maxRead <= 4_194_304 then q.maxRead
    else 4_194_304
  }

  lemma WantedIs(q: ReadRequest)
    ensures Clamped(q.count, q.maxRead) == Wanted(q)
  {
  }

  /** The end of the range does not fit 64 bits, and the build stops there or, wrapped
      around, it lies before the end of the file. */
  predicate EndOverflows(q: ReadRequest, file: FileData) {
    var end := q.offset + Wanted(q) - 0x1_0000_0000_0000_0000;
    0 <= end && (q.overflowChecks || end < |file|)
  }

  /** No reply is made if and only if the range of a readable file overflows. */
  lemma NoReplyIff(q: ReadRequest)
    ensures ReplyBytes(q).None? <==>
      q.handle.None? && q.access.Granted? && q.file.Ok? && EndOverflows(q, q.file.value)
  {
    WantedIs(q);
  }

  /** The status of the checks in their order: the handle, read access, the file. */
  function Status(q: ReadRequest): u32 {
    if q.handle.Some? then StatNumber(q.handle.value)
    else if q.access.Denied? then 13
    else if q.access.Refused? then StatNumber(q.access.stat)
    else if q.file.Error? then StatNumber(q.file.error)
    else 0
  }

  lemma DataStatus(xid: u32, attr: Option<Fattr3>, chunk: Chunk, rest: bytes)
    requires |chunk.data| < 0x1_0000_0000
    ensures var head := DecAnswered(DataReply(xid, attr, chunk) + rest);
      head.Some? && head.value.0 == Answered(xid, 0)
  {
    var data := EncU32(|chunk.data|) + (EncBool(chunk.eof) + EncOpaque(chunk.data));
    Regroup4(EncMsg(SuccessReply(xid)), EncU32(0), EncPostOpAttr(attr), data, rest);
    AnsweredRoundTrip(xid, 0, EncPostOpAttr(attr) + (data + rest));
  }

  /** Any reply is read as this status under the request's transaction. */
  lemma ReplyStatus(q: ReadRequest, rest: bytes)
    requires ReplyBytes(q).Some?
    ensures var head := DecAnswered(ReplyBytes(q).value + rest);
      head.Some? && head.value.0 == Answered(q.xid, Status(q))
  {
    if q.handle.None? && q.access.Granted? && q.file.Ok? {
      DataStatus(q.xid, q.attr, ReadRange(q.file.value, q.offset, Clamped(q.count, q.maxRead)), rest);
    } else {
      var stat, attr := RefusalReply(q);
      ErrorReplyDecodes(q.xid, stat, attr, rest);
    }
  }

  lemma RefusalReply(q: ReadRequest) returns (stat: Stat, attr: Option<Fattr3>)
    requires !(q.handle.None? && q.access.Granted? && q.file.Ok?)
    ensures ReplyBytes(q) == Some(ErrorReply(q.xid, stat, attr)) && StatNumber(stat) == Status(q)
    ensures attr == if q.handle.Some? then None else q.attr
  {
    attr := if q.handle.Some? then None else q.attr;
    stat := if q.handle.Some? then q.handle.value else if q.access.Denied? then Acces3
      else if q.access.Refused? then q.access.stat else q.file.error;
  }

  /** The checks report errors, not success. */
  predicate Genuine(q: ReadRequest) {
    q.handle != Some(Ok3) && q.access != Access.Refused(Ok3) && q.file != Error(Ok3)
  }

  lemma NoDataUnlessOk(s: bytes)
    requires DecAnswered(s).Some? && DecAnswered(s).value.0.stat != 0
    ensures DecReadReply(s).None?
  {
  }

  /** A client reads data if and only if its handle resolved, it may read, the file could
      be opened, and its range does not overflow. */
  lemma DataIff(q: ReadRequest)
    requires Genuine(q)
    ensures (ReplyBytes(q).Some? && DecReadReply(ReplyBytes(q).value).Some?) <==>
      q.handle.None? && q.access.Granted? && q.file.Ok? && !EndOverflows(q, q.file.value)
  {
    NoReplyIff(q);
    if q.handle.None? && q.access.Granted? && q.file.Ok? {
      if !EndOverflows(q, q.file.value) {
        DataAlone(q);
      }
    } else {
      RefusalHasNoData(q);
    }
  }

  lemma RefusalHasNoData(q: ReadRequest)
    requires Genuine(q) && !(q.handle.None? && q.access.Granted? && q.file.Ok?)
    ensures ReplyBytes(q).Some? && DecReadReply(ReplyBytes(q).value).None?
  {
    NoReplyIff(q);
    RefusalStatus(q);
    AnsweredAlone(q, ReplyBytes(q).value);
  }

  lemma RefusalStatus(q: ReadRequest)
    requires Genuine(q) && !(q.handle.None? && q.access.Granted? && q.file.Ok?)
    ensures Status(q) != 0
  {
  }

  lemma AnsweredAlone(q: ReadRequest, reply: bytes)
    requires ReplyBytes(q) == Some(reply) && Status(q) != 0
    ensures DecReadReply(reply).None?
  {
    ReplyStatus(q, []);
    assert reply + [] == reply;
    NoDataUnlessOk(reply);
  }

  lemma DataAlone(q: ReadRequest)
    requires q.handle.None? && q.access.Granted? && q.file.Ok? && !EndOverflows(q, q.file.value)
    ensures ReplyBytes(q).Some? && DecReadReply(ReplyBytes(q).value).Some?
  {
    DataRead(q, []);
    var reply := ReplyBytes(q).value;
    assert reply + [] == reply;
  }

  /** The bytes at the offset, as many as wanted or as are left, and eof exactly if the
      range reaches the end of the file; a range beyond the end has no bytes. */
  predicate IsRange(file: FileData, offset: nat, wanted: nat, chunk: Chunk) {
    var left := if offset < |file| then |file| - offset else 0;
    && |chunk.data| == (if wanted < left then wanted else left)
    && (forall i | 0 <= i < |chunk.data| :: chunk.data[i] == file[offset + i])
    && (chunk.eof <==> offset + wanted >= |file|)
  }

  lemma RangeRead(file: FileData, offset: nat, wanted: nat)
    ensures IsRange(file, offset, wanted, ReadRange(file, offset, wanted))
  {
  }

  lemma ReplyIsData(q: ReadRequest) returns (chunk: Chunk)
    requires q.handle.None? && q.access.Granted? && q.file.Ok? && !EndOverflows(q, q.file.value)
    ensures |chunk.data| <= MAX_XDR_OPAQUE_LENGTH && ReplyBytes(q) == Some(DataReply(q.xid, q.attr, chunk))
    ensures IsRange(q.file.value, q.offset, Wanted(q), chunk)
  {
    NoReplyIff(q);
    WantedIs(q);
    RangeRead(q.file.value, q.offset, Wanted(q));
    chunk := ReadRange(q.file.value, q.offset, Wanted(q));
  }

  /** What the client reads is the range it wanted, with its length and the attributes. */
  lemma DataRead(q: ReadRequest, rest: bytes)
    requires q.handle.None? && q.access.Granted? && q.file.Ok? && !EndOverflows(q, q.file.value)
    ensures ReplyBytes(q).Some?
    ensures var r := DecReadReply(ReplyBytes(q).value + rest);
      && r.Some? && r.value.1 == rest
      && r.value.0.xid == q.xid && r.value.0.attr == q.attr && r.value.0.count == |r.value.0.chunk.data|
      && IsRange(q.file.value, q.offset, Wanted(q), r.value.0.chunk)
  {
    var chunk := ReplyIsData(q);
    DataReplyDecodes(q.xid, q.attr, chunk, rest);
  }
}
