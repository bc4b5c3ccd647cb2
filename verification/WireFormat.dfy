/** The bytes on the wire, word by word: big-endian words, the call and reply messages
    (RFC 5531, section 9), file attributes and directory entries (RFC 1813, sections 2.6
    and 3.3.16), and the record header (RFC 5531, section 11). */
module WireFormat {
  import opened Wrappers
  import opened Xdr
  import opened XdrRpc
  import opened XdrNfs
  import opened NfsReply
  import RecordMarking

  // ---- words -------------------------------------------------------------

  /** Most significant byte first. */
  lemma U32Bytes(x: u32)
    ensures EncU32(x) == [x / 0x100_0000, x / 0x1_0000 % 0x100, x / 0x100 % 0x100, x % 0x100]
  {
    var x1, x2, x3 := x / 0x100, x / 0x1_0000, x / 0x100_0000;
    assert x1 / 0x100 == x2 && x2 / 0x100 == x3 && x3 / 0x100 == 0 && x3 % 0x100 == x3;
    assert BigEndian(x3, 1) == BigEndian(0, 0) + [x3];
    assert BigEndian(x2, 2) == BigEndian(x3, 1) + [x2 % 0x100];
    assert BigEndian(x1, 3) == BigEndian(x2, 2) + [x1 % 0x100];
    assert BigEndian(x, 4) == BigEndian(x1, 3) + [x % 0x100];
  }

  function High(x: u64): u32 {
    x / 0x1_0000_0000
  }

  function Low(x: u64): u32 {
    x % 0x1_0000_0000
  }

  lemma ByteOff(x: nat, n: nat, b: bytes, last: byte)
    requires n > 0 && BigEndian(x / 0x100, n - 1) == b && last == x % 0x100
    ensures BigEndian(x, n) == b + [last]
  {
  }

  /** The high word first. */
  lemma U64Words(x: u64)
    ensures EncU64(x) == EncU32(High(x)) + EncU32(Low(x))
  {
    var h: nat, l: nat := High(x), Low(x);
    var x1: nat, x2: nat, x3: nat := x / 0x100, x / 0x1_0000, x / 0x100_0000;
    LowBytes(x, h, l, x1, x2, x3);
    var b := EncU32(h);
    ByteOff(x3, 5, b, l / 0x100_0000);
    ByteOff(x2, 6, b + [l / 0x100_0000], l / 0x1_0000 % 0x100);
    ByteOff(x1, 7, b + [l / 0x100_0000] + [l / 0x1_0000 % 0x100], l / 0x100 % 0x100);
    ByteOff(x, 8, b + [l / 0x100_0000] + [l / 0x1_0000 % 0x100] + [l / 0x100 % 0x100], l % 0x100);
    U32Bytes(l);
  }

  lemma LowBytes(x: nat, h: nat, l: nat, x1: nat, x2: nat, x3: nat)
    requires x == h * 0x1_0000_0000 + l && l < 0x1_0000_0000
    requires x1 == x / 0x100 && x2 == x / 0x1_0000 && x3 == x / 0x100_0000
    ensures x3 / 0x100 == h && x3 % 0x100 == l / 0x100_0000
    ensures x2 / 0x100 == x3 && x2 % 0x100 == l / 0x1_0000 % 0x100
    ensures x1 / 0x100 == x2 && x1 % 0x100 == l / 0x100 % 0x100 && x % 0x100 == l % 0x100
  {
    assert x1 == h * 0x100_0000 + l / 0x100;
    assert x2 == h * 0x1_0000 + l / 0x1_0000;
    assert x3 == h * 0x100 + l / 0x100_0000;
  }

  lemma {:induction false} JoinWords(a: seq<u32>, b: seq<u32>)
    ensures EncWords(a) + EncWords(b) == EncWords(a + b)
  {
    if a == [] {
      assert [] + b == b && EncWords([]) + EncWords(b) == EncWords(b);
    } else {
      assert (a + b)[1..] == a[1..] + b;
      JoinWords(a[1..], b);
      Regroup2(EncU32(a[0]), EncWords(a[1..]), EncWords(b));
    }
  }

  lemma Word(x: u32)
    ensures EncU32(x) == EncWords([x])
  {
    assert [x][1..] == [] && EncU32(x) + EncWords([]) == EncU32(x);
  }

  /** A word in front of words. */
  lemma Prepend(x: u32, ws: seq<u32>)
    ensures EncU32(x) + EncWords(ws) == EncWords([x] + ws)
  {
    Word(x);
    JoinWords([x], ws);
  }

  /** Opaque data: its length, its bytes, and fewer than four zeros up to a multiple of four. */
  lemma OpaqueBytes(b: Payload)
    ensures exists pad: bytes ::
      && EncOpaque(b) == EncWords([|b|]) + (b + pad)
      && |pad| < 4 && (|b| + |pad|) % 4 == 0 && forall i | 0 <= i < |pad| :: pad[i] == 0
  {
    Word(|b|);
    var pad := Zeros(PaddingLen(|b|));
    assert EncOpaque(b) == EncWords([|b|]) + (b + pad);
  }

  // ---- messages ----------------------------------------------------------

  function FlavorNumber(f: AuthFlavor): u32 {
    if f.AuthNull? then 0 else if f.AuthUnix? then 1 else if f.AuthShort? then 2 else 3
  }

  /** A call: transaction, CALL, the versions and numbers, credentials, verifier. */
  lemma CallWords(xid: u32, c: CallBody)
    ensures EncMsg(RpcMsg(xid, Call(c))) == EncWords([xid, 0, c.rpcvers, c.prog, c.vers, c.proc])
        + (EncU32(FlavorNumber(c.cred.flavor)) + EncOpaque(c.cred.body)
          + (EncU32(FlavorNumber(c.verf.flavor)) + EncOpaque(c.verf.body)))
  {
    var tail := EncAuth(c.cred) + EncAuth(c.verf);
    Six(xid, 0, c.rpcvers, c.prog, c.vers, c.proc);
    Regroup5(EncU32(0), EncU32(c.rpcvers), EncU32(c.prog), EncU32(c.vers), EncU32(c.proc), tail);
    Regroup2(EncU32(xid), EncU32(0) + (EncU32(c.rpcvers) + (EncU32(c.prog) + (EncU32(c.vers) + EncU32(c.proc)))), tail);
  }

  lemma Six(a: u32, b: u32, c: u32, d: u32, e: u32, f: u32)
    ensures EncWords([a, b, c, d, e, f])
      == EncU32(a) + (EncU32(b) + (EncU32(c) + (EncU32(d) + (EncU32(e) + EncU32(f)))))
  {
    Word(f);
    Prepend(e, [f]);
    Prepend(d, [e, f]);
    Prepend(c, [d, e, f]);
    Prepend(b, [c, d, e, f]);
    Prepend(a, [b, c, d, e, f]);
  }

  /** The words of a reply after its transaction and REPLY, for an empty verifier. */
  function ReplyWords(r: ReplyBody): seq<u32> {
    match r
    case MsgAccepted(a) => [0, 0, 0] + AcceptWords(a.data)
    case MsgDenied(RpcMismatch(info)) => [1, 0, info.low, info.high]
    case MsgDenied(AuthError(stat)) =>
      [1, 1, match stat
        case BadCred => 1
        case RejectedCred => 2
        case BadVerf => 3
        case RejectedVerf => 4
        case TooWeak => 5]
  }

  function AcceptWords(a: AcceptBody): seq<u32> {
    match a
    case Success => [0]
    case ProgUnavail => [1]
    case ProgMismatch(info) => [2, info.low, info.high]
    case ProcUnavail => [3]
    case GarbageArgs => [4]
  }

  lemma AcceptIsWords(a: AcceptBody)
    ensures EncAccept(a) == EncWords(AcceptWords(a))
  {
    Words3(2, if a.ProgMismatch? then a.info.low else 0, if a.ProgMismatch? then a.info.high else 0);
    Word(0);
    Word(1);
    Word(3);
    Word(4);
  }

  lemma Words3(a: u32, b: u32, c: u32)
    ensures EncWords([a, b, c]) == EncU32(a) + (EncU32(b) + EncU32(c))
    ensures EncWords([b, c]) == EncU32(b) + EncU32(c)
  {
    Word(c);
    Prepend(b, [c]);
    Prepend(a, [b, c]);
  }

  lemma ReplyIsWords(r: ReplyBody)
    requires r.MsgAccepted? ==> r.accepted.verf == OpaqueAuth(AuthNull, [])
    ensures EncReply(r) == EncWords(ReplyWords(r))
  {
    match r
    case MsgAccepted(a) =>
      AcceptIsWords(a.data);
      EmptyAuth();
      Words3(0, 0, 0);
      JoinWords([0, 0, 0], AcceptWords(a.data));
      Regroup2(EncU32(0), EncAuth(a.verf), EncAccept(a.data));
    case MsgDenied(RpcMismatch(info)) =>
      Words3(0, info.low, info.high);
      Prepend(1, [0, info.low, info.high]);
    case MsgDenied(AuthError(stat)) =>
      Words3(1, 1, StatCode(stat));
  }

  lemma EmptyAuth()
    ensures EncAuth(OpaqueAuth(AuthNull, [])) == EncU32(0) + EncU32(0)
  {
    assert EncFixed([]) == [];
    assert EncOpaque([]) == EncU32(0);
  }

  /** A reply is its transaction, REPLY, and these words. */
  lemma MessageWords(xid: u32, r: ReplyBody)
    requires r.MsgAccepted? ==> r.accepted.verf == OpaqueAuth(AuthNull, [])
    ensures EncMsg(RpcMsg(xid, Reply(r))) == EncWords([xid, 1] + ReplyWords(r))
  {
    ReplyIsWords(r);
    Words3(0, xid, 1);
    JoinWords([xid, 1], ReplyWords(r));
    Regroup2(EncU32(xid), EncU32(1), EncReply(r));
  }

  lemma SuccessWords(xid: u32)
    ensures EncMsg(SuccessReply(xid)) == EncWords([xid, 1, 0, 0, 0, 0])
  {
    MessageWords(xid, SuccessReply(xid).body.reply);
    assert [xid, 1] + ([0, 0, 0] + [0]) == [xid, 1, 0, 0, 0, 0];
  }

  /** The statuses by number (RFC 1813, section 2.6). */
  function StatOf(n: u32): Option<Stat> {
    if n == 0 then Some(Ok3)
    else if n == 2 then Some(NoEnt3)
    else if n == 5 then Some(Io3)
    else if n == 13 then Some(Acces3)
    else if n == 17 then Some(Exist3)
    else if n == 20 then Some(NotDir3)
    else if n == 21 then Some(IsDir3)
    else if n == 70 then Some(Stale3)
    else if n == 10001 then Some(BadHandle3)
    else if n == 10003 then Some(BadCookie3)
    else if n == 10004 then Some(NotSupp3)
    else if n == 10005 then Some(TooSmall3)
    else None
  }

  lemma NumberRead(stat: Stat)
    ensures StatOf(StatNumber(stat)) == Some(stat)
  {
  }

  /** The reply is for the transaction and has the number of the status. */
  predicate ReadAs(reply: bytes, xid: u32, stat: Stat) {
    var head := DecAnswered(reply);
    head.Some? && head.value.0.xid == xid && StatOf(head.value.0.stat) == Some(stat)
  }

  /** A refusal is read as its number, and that number as the refusal. */
  lemma RefusalRead(xid: u32, stat: Stat, attr: Option<Fattr3>, rest: bytes)
    ensures ReadAs(ErrorReply(xid, stat, attr) + rest, xid, stat)
  {
    NumberRead(stat);
    HeadIs(xid, stat, attr, rest);
  }

  lemma HeadIs(xid: u32, stat: Stat, attr: Option<Fattr3>, rest: bytes)
    ensures var head := DecAnswered(ErrorReply(xid, stat, attr) + rest);
      head.Some? && head.value.0 == Answered(xid, StatNumber(stat))
  {
    ErrorReplyDecodes(xid, stat, attr, rest);
  }

  // ---- attributes and entries --------------------------------------------

  function KindNumber(k: FileKind): u32 {
    match k
    case NF3REG => 1
    case NF3DIR => 2
    case NF3BLK => 3
    case NF3CHR => 4
    case NF3LNK => 5
    case NF3SOCK => 6
    case NF3FIFO => 7
  }

  function U64Pair(x: u64): seq<u32> {
    [High(x), Low(x)]
  }

  function TimeWords(t: NfsTime): seq<u32> {
    [t.seconds, t.nseconds]
  }

  /** Twenty-one words of attributes. */
  function AttributeWords(a: Fattr3): seq<u32> {
    [KindNumber(a.ftype), a.mode, a.nlink, a.uid, a.gid]
    + (U64Pair(a.size) + U64Pair(a.used) + [a.rdev1, a.rdev2])
    + (U64Pair(a.fsid) + U64Pair(a.fileid) + TimeWords(a.atime) + TimeWords(a.mtime) + TimeWords(a.ctime))
  }

  lemma Pair(x: u64)
    ensures EncU64(x) == EncWords(U64Pair(x))
  {
    U64Words(x);
    Words3(0, High(x), Low(x));
  }

  lemma Time(t: NfsTime)
    ensures EncTime(t) == EncWords(TimeWords(t))
  {
    Words3(0, t.seconds, t.nseconds);
  }

  lemma OwnerWords(a: Fattr3)
    ensures EncOwner(a) == EncWords([KindNumber(a.ftype), a.mode, a.nlink, a.uid, a.gid])
  {
    Words3(a.nlink, a.uid, a.gid);
    Prepend(a.mode, [a.nlink, a.uid, a.gid]);
    Prepend(KindNumber(a.ftype), [a.mode, a.nlink, a.uid, a.gid]);
  }

  lemma SizeWords(a: Fattr3)
    ensures EncSizes(a) == EncWords(U64Pair(a.size) + U64Pair(a.used) + [a.rdev1, a.rdev2])
  {
    Pair(a.size);
    Pair(a.used);
    Words3(0, a.rdev1, a.rdev2);
    JoinWords(U64Pair(a.size), U64Pair(a.used));
    JoinWords(U64Pair(a.size) + U64Pair(a.used), [a.rdev1, a.rdev2]);
    Regroup2(EncU64(a.size), EncU64(a.used), EncU32(a.rdev1) + EncU32(a.rdev2));
  }

  lemma IdWords(a: Fattr3)
    ensures EncIds(a) == EncWords(
      U64Pair(a.fsid) + U64Pair(a.fileid) + TimeWords(a.atime) + TimeWords(a.mtime) + TimeWords(a.ctime))
  {
    Pair(a.fsid);
    Pair(a.fileid);
    Time(a.atime);
    Time(a.mtime);
    Time(a.ctime);
    var ids := U64Pair(a.fsid) + U64Pair(a.fileid);
    var seen := ids + TimeWords(a.atime);
    JoinWords(U64Pair(a.fsid), U64Pair(a.fileid));
    JoinWords(ids, TimeWords(a.atime));
    JoinWords(seen, TimeWords(a.mtime));
    JoinWords(seen + TimeWords(a.mtime), TimeWords(a.ctime));
    Regroup4(EncU64(a.fsid), EncU64(a.fileid), EncTime(a.atime), EncTime(a.mtime), EncTime(a.ctime));
    Left5(EncU64(a.fsid), EncU64(a.fileid), EncTime(a.atime), EncTime(a.mtime), EncTime(a.ctime));
  }

  lemma Left5(a: bytes, b: bytes, c: bytes, d: bytes, e: bytes)
    ensures (((a + b) + c) + d) + e == a + (b + (c + (d + e)))
  {
    Appended3(a + b, c, d, e);
    Regroup2(a, b, c + (d + e));
  }

  lemma FattrIsWords(a: Fattr3)
    ensures EncFattr(a) == EncWords(AttributeWords(a))
  {
    OwnerWords(a);
    SizeWords(a);
    IdWords(a);
    var owner := [KindNumber(a.ftype), a.mode, a.nlink, a.uid, a.gid];
    var sizes := U64Pair(a.size) + U64Pair(a.used) + [a.rdev1, a.rdev2];
    var ids := U64Pair(a.fsid) + U64Pair(a.fileid) + TimeWords(a.atime) + TimeWords(a.mtime) + TimeWords(a.ctime);
    JoinWords(owner, sizes);
    JoinWords(owner + sizes, ids);
    Regroup2(EncOwner(a), EncSizes(a), EncIds(a));
  }

  /** Optional attributes: a word 1 and the attributes, or a word 0. */
  lemma AttributesAreWords(a: Option<Fattr3>)
    ensures EncPostOpAttr(a) == EncWords(if a.Some? then [1] + AttributeWords(a.value) else [0])
  {
    if a.Some? {
      FattrIsWords(a.value);
      Prepend(1, AttributeWords(a.value));
    } else {
      Word(0);
    }
  }

  /** An entry: file id, name, cookie; for READDIRPLUS then attributes and handle. */
  lemma EntryWords(e: EntryPlus3)
    ensures EncEntry(e.entry) == EncWords(U64Pair(e.entry.fileid)) + (EncOpaque(e.entry.name)
        + EncWords(U64Pair(e.entry.cookie)))
    ensures EncEntryPlus(e) == EncEntry(e.entry)
      + (EncWords(if e.attributes.Some? then [1] + AttributeWords(e.attributes.value) else [0])
        + if e.handle.Some? then EncWords([1]) + EncOpaque(e.handle.value) else EncWords([0]))
  {
    Pair(e.entry.fileid);
    Pair(e.entry.cookie);
    AttributesAreWords(e.attributes);
    Word(0);
    Word(1);
  }

  // ---- records -----------------------------------------------------------

  /** A message of up to 2^31 - 1 bytes is one fragment: its length with the highest bit
      set, and the message. */
  lemma OneFragment(message: bytes)
    requires 0 < |message| <= 0x7FFF_FFFF
    ensures RecordMarking.Record(message) == EncWords([0x8000_0000 + |message|]) + message
  {
    Word(0x8000_0000 + |message|);
    assert message[..|message|] == message && message[|message|..] == [];
    assert message + RecordMarking.Record([]) == message;
  }
}
