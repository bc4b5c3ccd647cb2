/** Status codes of NFS version 3 and the reply every refused request gets. */
module NfsReply {
  import opened Wrappers
  import opened Xdr
  import opened XdrRpc
  import opened XdrNfs

  datatype Stat = Ok3 | NoEnt3 | Io3 | Acces3 | Exist3 | NotDir3 | IsDir3 | Stale3 | BadHandle3 | BadCookie3 | NotSupp3
    | TooSmall3

  function StatNumber(s: Stat): u32 {
    match s
    case Ok3 => 0
    case NoEnt3 => 2
    case Io3 => 5
    case Acces3 => 13
    case Exist3 => 17
    case NotDir3 => 20
    case IsDir3 => 21
    case Stale3 => 70
    case BadHandle3 => 10001
    case BadCookie3 => 10003
    case NotSupp3 => 10004
    case TooSmall3 => 10005
  }

  /** The outcome of a handler's access check. */
  datatype Access = Granted | Denied | Refused(stat: Stat)

  function ErrorReply(xid: u32, stat: Stat, attr: Option<Fattr3>): bytes {
    EncMsg(SuccessReply(xid)) + (EncU32(StatNumber(stat)) + EncPostOpAttr(attr))
  }

  /** What a client reads first of any accepted reply: the transaction and the status. */
  datatype Answered = Answered(xid: u32, stat: u32)

  function DecAnswered(s: bytes): Parse<Answered> {
    var (msg, s1) :- DecMsg(s);
    var (stat, s2) :- DecU32(s1);
    if msg != SuccessReply(msg.xid) then None else Some((Answered(msg.xid, stat), s2))
  }

  lemma AnsweredRoundTrip(xid: u32, stat: u32, rest: bytes)
    ensures DecAnswered(EncMsg(SuccessReply(xid)) + (EncU32(stat) + rest)) == Some((Answered(xid, stat), rest))
  {
    MsgRoundTrip(SuccessReply(xid), EncU32(stat) + rest);
    U32RoundTrip(stat, rest);
  }

  /** A refusal is read as its status and the attributes sent with it. */
  lemma ErrorReplyDecodes(xid: u32, stat: Stat, attr: Option<Fattr3>, rest: bytes)
    ensures var head := DecAnswered(ErrorReply(xid, stat, attr) + rest);
      && head.Some? && head.value.0 == Answered(xid, StatNumber(stat))
      && DecPostOpAttr(head.value.1) == Some((attr, rest))
  {
    Regroup3(EncMsg(SuccessReply(xid)), EncU32(StatNumber(stat)), EncPostOpAttr(attr), rest);
    AnsweredRoundTrip(xid, StatNumber(stat), EncPostOpAttr(attr) + rest);
    PostOpAttrRoundTrip(attr, rest);
  }

  method WriteError(xid: u32, stat: Stat, attr: Option<Fattr3>, output: Writer)
    modifies output
    ensures output.data == old(output.data) + ErrorReply(xid, stat, attr)
  {
    Appended3(output.data, EncMsg(SuccessReply(xid)), EncU32(StatNumber(stat)), EncPostOpAttr(attr));
    output.WriteAll(EncMsg(SuccessReply(xid)));
    output.WriteU32(StatNumber(stat));
    output.WriteAll(EncPostOpAttr(attr));
  }
}
