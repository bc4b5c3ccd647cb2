/** The RPC message codec (RFC 5531, section 9): nested call and reply unions. */
module XdrRpc {
  import opened Wrappers
  import opened Xdr

  datatype AuthFlavor = AuthNull | AuthUnix | AuthShort | AuthDes

  datatype AuthStat = BadCred | RejectedCred | BadVerf | RejectedVerf | TooWeak

  datatype AuthUnixBody = AuthUnixBody(stamp: u32, machinename: Payload, uid: u32, gid: u32, gids: seq<u32>)

  datatype OpaqueAuth = OpaqueAuth(flavor: AuthFlavor, body: Payload)

  datatype CallBody = CallBody(rpcvers: u32, prog: u32, vers: u32, proc: u32, cred: OpaqueAuth, verf: OpaqueAuth)

  datatype MismatchInfo = MismatchInfo(low: u32, high: u32)

  datatype AcceptBody = Success | ProgUnavail | ProgMismatch(info: MismatchInfo) | ProcUnavail | GarbageArgs

  datatype AcceptedReply = AcceptedReply(verf: OpaqueAuth, data: AcceptBody)

  datatype RejectedReply = RpcMismatch(info: MismatchInfo) | AuthError(stat: AuthStat)

  datatype ReplyBody = MsgAccepted(accepted: AcceptedReply) | MsgDenied(rejected: RejectedReply)

  datatype RpcBody = Call(call: CallBody) | Reply(reply: ReplyBody)

  datatype RpcMsg = RpcMsg(xid: u32, body: RpcBody)

  // ---- encoders ----------------------------------------------------------

  function FlavorCode(f: AuthFlavor): u32 {
    match f
    case AuthNull => 0
    case AuthUnix => 1
    case AuthShort => 2
    case AuthDes => 3
  }

  function StatCode(s: AuthStat): u32 {
    match s
    case BadCred => 1
    case RejectedCred => 2
    case BadVerf => 3
    case RejectedVerf => 4
    case TooWeak => 5
  }

  function EncAuth(a: OpaqueAuth): bytes {
    EncU32(FlavorCode(a.flavor)) + EncOpaque(a.body)
  }

  function EncAuthUnix(a: AuthUnixBody): bytes
    requires |a.gids| < 0x1_0000_0000
  {
    EncU32(a.stamp) + (EncOpaque(a.machinename) + (EncU32(a.uid) + (EncU32(a.gid) + EncArray(a.gids))))
  }

  function EncCall(c: CallBody): bytes {
    EncU32(c.rpcvers) + (EncU32(c.prog) + (EncU32(c.vers) + (EncU32(c.proc) + (EncAuth(c.cred) + EncAuth(c.verf)))))
  }

  function EncMismatch(i: MismatchInfo): bytes {
    EncU32(i.low) + EncU32(i.high)
  }

  function EncAccept(a: AcceptBody): bytes {
    match a
    case Success => EncU32(0)
    case ProgUnavail => EncU32(1)
    case ProgMismatch(info) => EncU32(2) + EncMismatch(info)
    case ProcUnavail => EncU32(3)
    case GarbageArgs => EncU32(4)
  }

  function EncAccepted(a: AcceptedReply): bytes {
    EncAuth(a.verf) + EncAccept(a.data)
  }

  function EncRejected(r: RejectedReply): bytes {
    match r
    case RpcMismatch(info) => EncU32(0) + EncMismatch(info)
    case AuthError(stat) => EncU32(1) + EncU32(StatCode(stat))
  }

  function EncReply(r: ReplyBody): bytes {
    match r
    case MsgAccepted(a) => EncU32(0) + EncAccepted(a)
    case MsgDenied(d) => EncU32(1) + EncRejected(d)
  }

  function EncBody(b: RpcBody): bytes {
    match b
    case Call(c) => EncU32(0) + EncCall(c)
    case Reply(r) => EncU32(1) + EncReply(r)
  }

  function EncMsg(m: RpcMsg): bytes {
    EncU32(m.xid) + EncBody(m.body)
  }

  // ---- decoders ----------------------------------------------------------

  function DecFlavor(s: bytes): Parse<AuthFlavor> {
    var (x, s1) :- DecU32(s);
    match x
    case 0 => Some((AuthNull, s1))
    case 1 => Some((AuthUnix, s1))
    case 2 => Some((AuthShort, s1))
    case 3 => Some((AuthDes, s1))
    case _ => None
  }

  function DecAuthStat(s: bytes): Parse<AuthStat> {
    var (x, s1) :- DecU32(s);
    match x
    case 1 => Some((BadCred, s1))
    case 2 => Some((RejectedCred, s1))
    case 3 => Some((BadVerf, s1))
    case 4 => Some((RejectedVerf, s1))
    case 5 => Some((TooWeak, s1))
    case _ => None
  }

  function DecAuth(s: bytes): Parse<OpaqueAuth> {
    var (flavor, s1) :- DecFlavor(s);
    var (body, s2) :- DecOpaque(s1);
    Some((OpaqueAuth(flavor, body), s2))
  }

  function DecAuthUnix(s: bytes): Parse<AuthUnixBody> {
    var (stamp, s1) :- DecU32(s);
    var (machinename, s2) :- DecOpaque(s1);
    var (uid, s3) :- DecU32(s2);
    var (gid, s4) :- DecU32(s3);
    var (gids, s5) :- DecArray(s4);
    Some((AuthUnixBody(stamp, machinename, uid, gid, gids), s5))
  }

  function DecCall(s: bytes): Parse<CallBody> {
    var (rpcvers, s1) :- DecU32(s);
    var (prog, s2) :- DecU32(s1);
    var (vers, s3) :- DecU32(s2);
    var (proc, s4) :- DecU32(s3);
    var (cred, s5) :- DecAuth(s4);
    var (verf, s6) :- DecAuth(s5);
    Some((CallBody(rpcvers, prog, vers, proc, cred, verf), s6))
  }

  function DecMismatch(s: bytes): Parse<MismatchInfo> {
    var (low, s1) :- DecU32(s);
    var (high, s2) :- DecU32(s1);
    Some((MismatchInfo(low, high), s2))
  }

  function DecAccept(s: bytes): Parse<AcceptBody> {
    var (x, s1) :- DecU32(s);
    match x
    case 0 => Some((Success, s1))
    case 1 => Some((ProgUnavail, s1))
    case 2 => var (info, s2) :- DecMismatch(s1); Some((ProgMismatch(info), s2))
    case 3 => Some((ProcUnavail, s1))
    case 4 => Some((GarbageArgs, s1))
    case _ => None
  }

  function DecAccepted(s: bytes): Parse<AcceptedReply> {
    var (verf, s1) :- DecAuth(s);
    var (data, s2) :- DecAccept(s1);
    Some((AcceptedReply(verf, data), s2))
  }

  function DecRejected(s: bytes): Parse<RejectedReply> {
    var (x, s1) :- DecU32(s);
    match x
    case 0 => var (info, s2) :- DecMismatch(s1); Some((RpcMismatch(info), s2))
    case 1 => var (stat, s2) :- DecAuthStat(s1); Some((AuthError(stat), s2))
    case _ => None
  }

  function DecReply(s: bytes): Parse<ReplyBody> {
    var (x, s1) :- DecU32(s);
    match x
    case 0 => var (a, s2) :- DecAccepted(s1); Some((MsgAccepted(a), s2))
    case 1 => var (d, s2) :- DecRejected(s1); Some((MsgDenied(d), s2))
    case _ => None
  }

  function DecBody(s: bytes): Parse<RpcBody> {
    var (x, s1) :- DecU32(s);
    match x
    case 0 => var (c, s2) :- DecCall(s1); Some((Call(c), s2))
    case 1 => var (r, s2) :- DecReply(s1); Some((Reply(r), s2))
    case _ => None
  }

  function DecMsg(s: bytes): Parse<RpcMsg> {
    var (xid, s1) :- DecU32(s);
    var (body, s2) :- DecBody(s1);
    Some((RpcMsg(xid, body), s2))
  }

  // ---- round trips -------------------------------------------------------

  /** Every opaque field is within the decoder's bound. */
  predicate AuthBounded(a: OpaqueAuth) {
    |a.body| <= MAX_XDR_OPAQUE_LENGTH
  }

  predicate Bounded(m: RpcMsg) {
    match m.body
    case Call(c) => AuthBounded(c.cred) && AuthBounded(c.verf)
    case Reply(MsgAccepted(a)) => AuthBounded(a.verf)
    case Reply(MsgDenied(_)) => true
  }

  lemma AuthRoundTrip(a: OpaqueAuth, rest: bytes)
    ensures DecAuth(EncAuth(a) + rest) == if AuthBounded(a) then Some((a, rest)) else None
  {
    Regroup2(EncU32(FlavorCode(a.flavor)), EncOpaque(a.body), rest);
    U32RoundTrip(FlavorCode(a.flavor), EncOpaque(a.body) + rest);
    OpaqueRoundTrip(a.body, rest);
  }

  /** AUTH_UNIX credentials come back exactly when name and group list are within bounds. */
  lemma AuthUnixRoundTrip(a: AuthUnixBody, rest: bytes)
    requires |a.gids| < 0x1_0000_0000
    ensures DecAuthUnix(EncAuthUnix(a) + rest)
         == if |a.machinename| <= MAX_XDR_OPAQUE_LENGTH && |a.gids| <= MAX_XDR_ARRAY_LENGTH
            then Some((a, rest)) else None
  {
    var t4 := EncArray(a.gids) + rest;
    var t3 := EncU32(a.gid) + t4;
    var t2 := EncU32(a.uid) + t3;
    var t1 := EncOpaque(a.machinename) + t2;
    Regroup5(EncU32(a.stamp), EncOpaque(a.machinename), EncU32(a.uid), EncU32(a.gid), EncArray(a.gids), rest);
    U32RoundTrip(a.stamp, t1);
    OpaqueRoundTrip(a.machinename, t2);
    U32RoundTrip(a.uid, t3);
    U32RoundTrip(a.gid, t4);
    ArrayRoundTrip(a.gids, rest);
  }

  lemma CallRoundTrip(c: CallBody, rest: bytes)
    ensures DecCall(EncCall(c) + rest)
         == if AuthBounded(c.cred) && AuthBounded(c.verf) then Some((c, rest)) else None
  {
    var t5 := EncAuth(c.verf) + rest;
    var t4 := EncAuth(c.cred) + t5;
    var t3 := EncU32(c.proc) + t4;
    var t2 := EncU32(c.vers) + t3;
    var t1 := EncU32(c.prog) + t2;
    Regroup5(EncU32(c.rpcvers), EncU32(c.prog), EncU32(c.vers), EncU32(c.proc),
      EncAuth(c.cred) + EncAuth(c.verf), rest);
    Regroup2(EncAuth(c.cred), EncAuth(c.verf), rest);
    U32RoundTrip(c.rpcvers, t1);
    U32RoundTrip(c.prog, t2);
    U32RoundTrip(c.vers, t3);
    U32RoundTrip(c.proc, t4);
    AuthRoundTrip(c.cred, t5);
    AuthRoundTrip(c.verf, rest);
  }

  lemma MismatchRoundTrip(i: MismatchInfo, rest: bytes)
    ensures DecMismatch(EncMismatch(i) + rest) == Some((i, rest))
  {
    Regroup2(EncU32(i.low), EncU32(i.high), rest);
    U32RoundTrip(i.low, EncU32(i.high) + rest);
    U32RoundTrip(i.high, rest);
  }

  lemma AcceptedRoundTrip(a: AcceptedReply, rest: bytes)
    ensures DecAccepted(EncAccepted(a) + rest) == if AuthBounded(a.verf) then Some((a, rest)) else None
  {
    Regroup2(EncAuth(a.verf), EncAccept(a.data), rest);
    AuthRoundTrip(a.verf, EncAccept(a.data) + rest);
    AcceptRoundTrip(a.data, rest);
  }

  lemma AcceptRoundTrip(a: AcceptBody, rest: bytes)
    ensures DecAccept(EncAccept(a) + rest) == Some((a, rest))
  {
    match a
    case Success => U32RoundTrip(0, rest);
    case ProgUnavail => U32RoundTrip(1, rest);
    case ProgMismatch(info) =>
      Regroup2(EncU32(2), EncMismatch(info), rest);
      U32RoundTrip(2, EncMismatch(info) + rest);
      MismatchRoundTrip(info, rest);
    case ProcUnavail => U32RoundTrip(3, rest);
    case GarbageArgs => U32RoundTrip(4, rest);
  }

  lemma RejectedRoundTrip(r: RejectedReply, rest: bytes)
    ensures DecRejected(EncRejected(r) + rest) == Some((r, rest))
  {
    match r
    case RpcMismatch(info) =>
      Regroup2(EncU32(0), EncMismatch(info), rest);
      U32RoundTrip(0, EncMismatch(info) + rest);
      MismatchRoundTrip(info, rest);
    case AuthError(stat) =>
      Regroup2(EncU32(1), EncU32(StatCode(stat)), rest);
      U32RoundTrip(1, EncU32(StatCode(stat)) + rest);
      U32RoundTrip(StatCode(stat), rest);
  }

  lemma ReplyRoundTrip(r: ReplyBody, rest: bytes)
    ensures DecReply(EncReply(r) + rest)
         == if r.MsgAccepted? ==> AuthBounded(r.accepted.verf) then Some((r, rest)) else None
  {
    match r
    case MsgAccepted(a) =>
      Regroup2(EncU32(0), EncAccepted(a), rest);
      U32RoundTrip(0, EncAccepted(a) + rest);
      AcceptedRoundTrip(a, rest);
    case MsgDenied(d) =>
      Regroup2(EncU32(1), EncRejected(d), rest);
      U32RoundTrip(1, EncRejected(d) + rest);
      RejectedRoundTrip(d, rest);
  }

  /** Decoding an encoded message with anything behind it gives the message back
      and leaves exactly the rest, if and only if its opaque fields are in bounds. */
  lemma MsgRoundTrip(m: RpcMsg, rest: bytes)
    ensures DecMsg(EncMsg(m) + rest) == if Bounded(m) then Some((m, rest)) else None
  {
    Regroup2(EncU32(m.xid), EncBody(m.body), rest);
    U32RoundTrip(m.xid, EncBody(m.body) + rest);
    match m.body
    case Call(c) =>
      Regroup2(EncU32(0), EncCall(c), rest);
      U32RoundTrip(0, EncCall(c) + rest);
      CallRoundTrip(c, rest);
    case Reply(r) =>
      Regroup2(EncU32(1), EncReply(r), rest);
      U32RoundTrip(1, EncReply(r) + rest);
      ReplyRoundTrip(r, rest);
  }

  lemma PrefixRest(a: bytes, b: bytes)
    requires a <= b
    ensures a + b[|a|..] == b && b + [] == b
  {
  }

  /** No two in-bounds messages share an encoding, and none encodes to a prefix of another. */
  lemma MsgPrefixFree(m: RpcMsg, n: RpcMsg)
    requires Bounded(m) && Bounded(n) && EncMsg(m) <= EncMsg(n)
    ensures m == n
  {
    var a, b := EncMsg(m), EncMsg(n);
    PrefixRest(a, b);
    MsgRoundTrip(m, b[|a|..]);
    MsgRoundTrip(n, []);
    assert DecMsg(b) == Some((m, b[|a|..])) && DecMsg(b) == Some((n, []));
  }

  predicate Aligned(b: bytes) {
    |b| % ALIGNMENT == 0
  }

  lemma AppendAligned(a: bytes, b: bytes)
    requires Aligned(a) && Aligned(b)
    ensures Aligned(a + b)
  {
  }

  lemma PaddedAligned(n: nat)
    ensures (4 + n + PaddingLen(n)) % ALIGNMENT == 0
  {
    assert (n + PaddingLen(n)) % ALIGNMENT == 0;
  }

  lemma OpaqueAligned(b: Payload)
    ensures Aligned(EncOpaque(b))
  {
    PaddedAligned(|b|);
    LengthAligned(EncOpaque(b), |b|);
  }

  lemma LengthAligned(b: bytes, n: nat)
    requires |b| == 4 + n + PaddingLen(n) && (4 + n + PaddingLen(n)) % ALIGNMENT == 0
    ensures Aligned(b)
  {
  }

  lemma AuthAligned(a: OpaqueAuth)
    ensures Aligned(EncAuth(a))
  {
    OpaqueAligned(a.body);
    AppendAligned(EncU32(FlavorCode(a.flavor)), EncOpaque(a.body));
  }

  lemma AcceptAligned(a: AcceptBody)
    ensures Aligned(EncAccept(a))
  {
    if a.ProgMismatch? {
      AppendAligned(EncU32(a.info.low), EncU32(a.info.high));
      AppendAligned(EncU32(2), EncMismatch(a.info));
    }
  }

  lemma RejectedAligned(r: RejectedReply)
    ensures Aligned(EncRejected(r))
  {
    match r
    case RpcMismatch(info) =>
      AppendAligned(EncU32(info.low), EncU32(info.high));
      AppendAligned(EncU32(0), EncMismatch(info));
    case AuthError(stat) =>
      AppendAligned(EncU32(1), EncU32(StatCode(stat)));
  }

  lemma ReplyAligned(r: ReplyBody)
    ensures Aligned(EncReply(r))
  {
    match r
    case MsgAccepted(a) =>
      AuthAligned(a.verf);
      AcceptAligned(a.data);
      AppendAligned(EncAuth(a.verf), EncAccept(a.data));
      AppendAligned(EncU32(0), EncAccepted(a));
    case MsgDenied(d) =>
      RejectedAligned(d);
      AppendAligned(EncU32(1), EncRejected(d));
  }

  lemma CallAligned(c: CallBody)
    ensures Aligned(EncCall(c))
  {
    AuthAligned(c.cred);
    AuthAligned(c.verf);
    var auths := EncAuth(c.cred) + EncAuth(c.verf);
    AppendAligned(EncAuth(c.cred), EncAuth(c.verf));
    AppendAligned(EncU32(c.proc), auths);
    AppendAligned(EncU32(c.vers), EncU32(c.proc) + auths);
    AppendAligned(EncU32(c.prog), EncU32(c.vers) + (EncU32(c.proc) + auths));
    AppendAligned(EncU32(c.rpcvers), EncU32(c.prog) + (EncU32(c.vers) + (EncU32(c.proc) + auths)));
  }

  /** Every encoded message is a whole number of XDR units, and never empty. */
  lemma MsgAligned(m: RpcMsg)
    ensures Aligned(EncMsg(m)) && EncMsg(m) != []
  {
    match m.body
    case Call(c) =>
      CallAligned(c);
      AppendAligned(EncU32(0), EncCall(c));
    case Reply(r) =>
      ReplyAligned(r);
      AppendAligned(EncU32(1), EncReply(r));
    AppendAligned(EncU32(m.xid), EncBody(m.body));
  }

  // ---- stream methods ----------------------------------------------------

  method SerializeAuth(a: OpaqueAuth, dest: Writer)
    modifies dest
    ensures dest.data == old(dest.data) + EncAuth(a)
  {
    Regroup2(dest.data, EncU32(FlavorCode(a.flavor)), EncOpaque(a.body));
    dest.WriteU32(FlavorCode(a.flavor));
    dest.WriteOpaque(a.body);
  }

  method SerializeCall(c: CallBody, dest: Writer)
    modifies dest
    ensures dest.data == old(dest.data) + EncCall(c)
  {
    ghost var auths := EncAuth(c.cred) + EncAuth(c.verf);
    Appended3(dest.data, EncU32(c.rpcvers), EncU32(c.prog), EncU32(c.vers) + (EncU32(c.proc) + auths));
    dest.WriteU32(c.rpcvers);
    dest.WriteU32(c.prog);
    Appended3(dest.data, EncU32(c.vers), EncU32(c.proc), auths);
    dest.WriteU32(c.vers);
    dest.WriteU32(c.proc);
    Regroup2(dest.data, EncAuth(c.cred), EncAuth(c.verf));
    SerializeAuth(c.cred, dest);
    SerializeAuth(c.verf, dest);
  }

  method SerializeMismatch(i: MismatchInfo, dest: Writer)
    modifies dest
    ensures dest.data == old(dest.data) + EncMismatch(i)
  {
    Regroup2(dest.data, EncU32(i.low), EncU32(i.high));
    dest.WriteU32(i.low);
    dest.WriteU32(i.high);
  }

  method SerializeAccept(a: AcceptBody, dest: Writer)
    modifies dest
    ensures dest.data == old(dest.data) + EncAccept(a)
  {
    match a {
      case Success => dest.WriteU32(0);
      case ProgUnavail => dest.WriteU32(1);
      case ProgMismatch(info) =>
        Regroup2(dest.data, EncU32(2), EncMismatch(info));
        dest.WriteU32(2);
        SerializeMismatch(info, dest);
      case ProcUnavail => dest.WriteU32(3);
      case GarbageArgs => dest.WriteU32(4);
    }
  }

  method SerializeRejected(r: RejectedReply, dest: Writer)
    modifies dest
    ensures dest.data == old(dest.data) + EncRejected(r)
  {
    match r {
      case RpcMismatch(info) =>
        Regroup2(dest.data, EncU32(0), EncMismatch(info));
        dest.WriteU32(0);
        SerializeMismatch(info, dest);
      case AuthError(stat) =>
        Regroup2(dest.data, EncU32(1), EncU32(StatCode(stat)));
        dest.WriteU32(1);
        dest.WriteU32(StatCode(stat));
    }
  }

  method SerializeReply(r: ReplyBody, dest: Writer)
    modifies dest
    ensures dest.data == old(dest.data) + EncReply(r)
  {
    match r {
      case MsgAccepted(a) =>
        Appended3(dest.data, EncU32(0), EncAuth(a.verf), EncAccept(a.data));
        dest.WriteU32(0);
        SerializeAuth(a.verf, dest);
        SerializeAccept(a.data, dest);
      case MsgDenied(d) =>
        Regroup2(dest.data, EncU32(1), EncRejected(d));
        dest.WriteU32(1);
        SerializeRejected(d, dest);
    }
  }

  method SerializeMsg(m: RpcMsg, dest: Writer)
    modifies dest
    ensures dest.data == old(dest.data) + EncMsg(m)
  {
    Regroup2(dest.data, EncU32(m.xid), EncBody(m.body));
    dest.WriteU32(m.xid);
    match m.body {
      case Call(c) =>
        Regroup2(dest.data, EncU32(0), EncCall(c));
        dest.WriteU32(0);
        SerializeCall(c, dest);
      case Reply(r) =>
        Regroup2(dest.data, EncU32(1), EncReply(r));
        dest.WriteU32(1);
        SerializeReply(r, dest);
    }
  }

  method DeserializeFlavor(src: Reader) returns (r: Option<AuthFlavor>)
    modifies src
    ensures Parsed(DecFlavor(old(src.data)), r, src.data)
  {
    var x :- src.ReadU32();
    match x {
      case 0 => return Some(AuthNull);
      case 1 => return Some(AuthUnix);
      case 2 => return Some(AuthShort);
      case 3 => return Some(AuthDes);
      case _ => return None;
    }
  }

  method DeserializeAuth(src: Reader) returns (r: Option<OpaqueAuth>)
    modifies src
    ensures Parsed(DecAuth(old(src.data)), r, src.data)
  {
    var flavor :- DeserializeFlavor(src);
    var body :- src.ReadOpaque();
    return Some(OpaqueAuth(flavor, body));
  }

  method DeserializeAuthUnix(src: Reader) returns (r: Option<AuthUnixBody>)
    modifies src
    ensures Parsed(DecAuthUnix(old(src.data)), r, src.data)
  {
    var stamp :- src.ReadU32();
    var machinename :- src.ReadOpaque();
    var uid :- src.ReadU32();
    var gid :- src.ReadU32();
    var gids :- src.ReadArray();
    return Some(AuthUnixBody(stamp, machinename, uid, gid, gids));
  }

  method DeserializeCall(src: Reader) returns (r: Option<CallBody>)
    modifies src
    ensures Parsed(DecCall(old(src.data)), r, src.data)
  {
    var rpcvers :- src.ReadU32();
    var prog :- src.ReadU32();
    var vers :- src.ReadU32();
    var proc :- src.ReadU32();
    var cred :- DeserializeAuth(src);
    var verf :- DeserializeAuth(src);
    return Some(CallBody(rpcvers, prog, vers, proc, cred, verf));
  }

  method DeserializeMismatch(src: Reader) returns (r: Option<MismatchInfo>)
    modifies src
    ensures Parsed(DecMismatch(old(src.data)), r, src.data)
  {
    var low :- src.ReadU32();
    var high :- src.ReadU32();
    return Some(MismatchInfo(low, high));
  }

  method DeserializeAccepted(src: Reader) returns (r: Option<AcceptedReply>)
    modifies src
    ensures Parsed(DecAccepted(old(src.data)), r, src.data)
  {
    var verf :- DeserializeAuth(src);
    var x :- src.ReadU32();
    match x {
      case 0 => return Some(AcceptedReply(verf, Success));
      case 1 => return Some(AcceptedReply(verf, ProgUnavail));
      case 2 =>
        var info :- DeserializeMismatch(src);
        return Some(AcceptedReply(verf, ProgMismatch(info)));
      case 3 => return Some(AcceptedReply(verf, ProcUnavail));
      case 4 => return Some(AcceptedReply(verf, GarbageArgs));
      case _ => return None;
    }
  }

  method DeserializeRejected(src: Reader) returns (r: Option<RejectedReply>)
    modifies src
    ensures Parsed(DecRejected(old(src.data)), r, src.data)
  {
    var x :- src.ReadU32();
    match x {
      case 0 =>
        var info :- DeserializeMismatch(src);
        return Some(RpcMismatch(info));
      case 1 =>
        var code :- src.ReadU32();
        match code {
          case 1 => return Some(AuthError(BadCred));
          case 2 => return Some(AuthError(RejectedCred));
          case 3 => return Some(AuthError(BadVerf));
          case 4 => return Some(AuthError(RejectedVerf));
          case 5 => return Some(AuthError(TooWeak));
          case _ => return None;
        }
      case _ => return None;
    }
  }

  method DeserializeMsg(src: Reader) returns (r: Option<RpcMsg>)
    modifies src
    ensures Parsed(DecMsg(old(src.data)), r, src.data)
  {
    var xid :- src.ReadU32();
    var kind :- src.ReadU32();
    match kind {
      case 0 =>
        var c :- DeserializeCall(src);
        return Some(RpcMsg(xid, Call(c)));
      case 1 =>
        var status :- src.ReadU32();
        match status {
          case 0 =>
            var a :- DeserializeAccepted(src);
            return Some(RpcMsg(xid, Reply(MsgAccepted(a))));
          case 1 =>
            var d :- DeserializeRejected(src);
            return Some(RpcMsg(xid, Reply(MsgDenied(d))));
          case _ => return None;
        }
      case _ => return None;
    }
  }

  // ---- reply builders ----------------------------------------------------

  function AcceptedWith(xid: u32, data: AcceptBody): RpcMsg {
    RpcMsg(xid, Reply(MsgAccepted(AcceptedReply(OpaqueAuth(AuthNull, []), data))))
  }

  function SuccessReply(xid: u32): RpcMsg {
    AcceptedWith(xid, Success)
  }

  function VersMismatch(xid: u32): RpcMsg {
    RpcMsg(xid, Reply(MsgDenied(RpcMismatch(MismatchInfo(0, 0)))))
  }
}
