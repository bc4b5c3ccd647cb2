/** Which calls reach a handler, and what the others are answered (RFC 5531, section 9). */
module RpcAnswers {
  import opened Wrappers
  import opened Xdr
  import opened XdrRpc
  import opened WorkQueue
  import opened RpcWorker

  /** NFS version 3, and the port mapper and mount programs of any version, over RPC version 2. */
  predicate Served(c: CallBody) {
    c.rpcvers == 2 && ((c.prog == 100003 && c.vers == 3) || c.prog == 100000 || c.prog == 100005)
  }

  /** The rejection of a call that is not served. */
  function Rejection(c: CallBody): ReplyBody
    requires !Served(c)
  {
    if c.rpcvers != 2 then MsgDenied(RpcMismatch(MismatchInfo(0, 0)))
    else
      MsgAccepted(AcceptedReply(
        OpaqueAuth(AuthNull, []), if c.prog == 100003 then ProgMismatch(MismatchInfo(3, 3)) else ProgUnavail))
  }

  predicate CredentialsDecode(c: CallBody) {
    c.cred.flavor == AuthUnix ==> DecAuthUnix(c.cred.body).Some?
  }

  /** A record carries no request if and only if it decodes to no message, to a reply,
      or to a call whose AUTH_UNIX credentials do not decode. */
  lemma MalformedIff(cmd: Command)
    ensures var o := DecMsg(cmd.data);
      JobOf(cmd).request.Malformed? <==>
        o.None? || o.value.0.body.Reply? || !CredentialsDecode(o.value.0.body.call)
  {
  }

  lemma ParsesCall(data: bytes, xid: u32, c: CallBody, rest: bytes)
    requires data == EncMsg(RpcMsg(xid, Call(c))) + rest
    requires Bounded(RpcMsg(xid, Call(c))) && CredentialsDecode(c)
    ensures ParseCall(data) == Some((xid, c))
  {
    MsgRoundTrip(RpcMsg(xid, Call(c)), rest);
  }

  /** A well-formed call is taken as the request of its xid and client. It is what its
      handler makes of it if it is served, and otherwise its reply decodes to the
      rejection under the same xid. */
  lemma CallIsAnswered(cmd: Command, xid: u32, c: CallBody, rest: bytes)
    requires cmd.data == EncMsg(RpcMsg(xid, Call(c))) + rest
    requires Bounded(RpcMsg(xid, Call(c))) && CredentialsDecode(c)
    ensures var job := JobOf(cmd);
      && job.client == cmd.client && job.checkedAt == cmd.checkedAt && job.recordedAt == cmd.recordedAt
      && job.request.Request? && job.request.xid == xid
      && if Served(c) then job.request.handled == cmd.handler
         else
           && job.request.handled.Replied?
           && DecMsg(job.request.handled.output) == Some((RpcMsg(xid, Reply(Rejection(c))), []))
  {
    ParsesCall(cmd.data, xid, c, rest);
    if !Served(c) {
      var reply := RpcMsg(xid, Reply(Rejection(c)));
      assert EncMsg(reply) + [] == EncMsg(reply);
      MsgRoundTrip(reply, []);
    }
  }

  /** So the handler decides the reply if and only if the call is served. */
  lemma HandlerDecidesIff(cmd: Command, xid: u32, c: CallBody, rest: bytes)
    requires cmd.data == EncMsg(RpcMsg(xid, Call(c))) + rest
    requires Bounded(RpcMsg(xid, Call(c))) && CredentialsDecode(c)
    ensures Served(c) <==> forall handler :: JobOf(cmd.(handler := handler)).request == Request(xid, handler)
  {
    if Served(c) {
      forall handler ensures JobOf(cmd.(handler := handler)).request == Request(xid, handler) {
        CallIsAnswered(cmd.(handler := handler), xid, c, rest);
      }
    } else {
      var failing := cmd.(handler := Failed([]));
      CallIsAnswered(failing, xid, c, rest);
      assert JobOf(failing).request != Request(xid, Failed([]));
    }
  }

  /** AUTH_UNIX credentials within the bounds of their format decode. */
  lemma EncodedCredentialsDecode(c: CallBody, a: AuthUnixBody)
    requires |a.machinename| <= MAX_XDR_OPAQUE_LENGTH && |a.gids| <= MAX_XDR_ARRAY_LENGTH
    requires c.cred.flavor == AuthUnix && c.cred.body == EncAuthUnix(a)
    ensures CredentialsDecode(c)
  {
    assert EncAuthUnix(a) + [] == EncAuthUnix(a);
    AuthUnixRoundTrip(a, []);
  }
}
