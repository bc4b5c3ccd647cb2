/** The port mapper's recursive mapping list, and the reply to PMAPPROC_DUMP. */
module Portmap {
  import opened Wrappers
  import opened Xdr
  import opened XdrRpc

  datatype Mapping = Mapping(prog: u32, vers: u32, prot: u32, port: u32)

  datatype PmapList = PmapList(map_: Mapping, next: Option<PmapList>)

  function EncMapping(m: Mapping): (r: bytes)
    ensures |r| == 16
  {
    EncU32(m.prog) + (EncU32(m.vers) + (EncU32(m.prot) + EncU32(m.port)))
  }

  function DecMapping(s: bytes): (r: Parse<Mapping>)
    ensures r.Some? ==> |r.value.1| < |s|
  {
    var (prog, s1) :- DecU32(s);
    var (vers, s2) :- DecU32(s1);
    var (prot, s3) :- DecU32(s2);
    var (port, s4) :- DecU32(s3);
    Some((Mapping(prog, vers, prot, port), s4))
  }

  function EncList(l: Option<PmapList>): bytes
    decreases l
  {
    match l
    case None => EncBool(false)
    case Some(node) => EncBool(true) + EncNode(node)
  }

  function EncNode(node: PmapList): bytes
    decreases node
  {
    EncMapping(node.map_) + EncList(node.next)
  }

  function DecNode(s: bytes): Parse<PmapList>
    decreases |s|
  {
    var (m, s1) :- DecMapping(s);
    var (more, s2) :- DecBool(s1);
    if !more then Some((PmapList(m, None), s2))
    else
      var (next, s3) :- DecNode(s2);
      Some((PmapList(m, Some(next)), s3))
  }

  function DecList(s: bytes): Parse<Option<PmapList>> {
    var (more, s1) :- DecBool(s);
    if !more then Some((None, s1))
    else
      var (node, s2) :- DecNode(s1);
      Some((Some(node), s2))
  }

  lemma MappingRoundTrip(m: Mapping, rest: bytes)
    ensures DecMapping(EncMapping(m) + rest) == Some((m, rest))
  {
    var t3 := EncU32(m.port) + rest;
    var t2 := EncU32(m.prot) + t3;
    var t1 := EncU32(m.vers) + t2;
    Regroup4(EncU32(m.prog), EncU32(m.vers), EncU32(m.prot), EncU32(m.port), rest);
    U32RoundTrip(m.prog, t1);
    U32RoundTrip(m.vers, t2);
    U32RoundTrip(m.prot, t3);
    U32RoundTrip(m.port, rest);
  }

  /** A list of any length comes back, leaving what followed it. */
  lemma {:induction false} NodeRoundTrip(node: PmapList, rest: bytes)
    ensures DecNode(EncNode(node) + rest) == Some((node, rest))
    decreases node
  {
    Regroup2(EncMapping(node.map_), EncList(node.next), rest);
    MappingRoundTrip(node.map_, EncList(node.next) + rest);
    match node.next
    case None =>
      BoolRoundTrip(false, rest);
    case Some(next) =>
      Regroup2(EncBool(true), EncNode(next), rest);
      BoolRoundTrip(true, EncNode(next) + rest);
      NodeRoundTrip(next, rest);
  }

  lemma ListRoundTrip(l: Option<PmapList>, rest: bytes)
    ensures DecList(EncList(l) + rest) == Some((l, rest))
  {
    match l
    case None =>
      BoolRoundTrip(false, rest);
    case Some(node) =>
      Regroup2(EncBool(true), EncNode(node), rest);
      BoolRoundTrip(true, EncNode(node) + rest);
      NodeRoundTrip(node, rest);
  }

  // ---- streams -----------------------------------------------------------

  method SerializeMapping(m: Mapping, dest: Writer)
    modifies dest
    ensures dest.data == old(dest.data) + EncMapping(m)
  {
    Regroup4(dest.data, EncU32(m.prog), EncU32(m.vers), EncU32(m.prot), EncU32(m.port));
    ghost var start := dest.data;
    dest.WriteU32(m.prog);
    Appended3(dest.data, EncU32(m.vers), EncU32(m.prot), EncU32(m.port));
    Regroup2(start, EncU32(m.prog), EncU32(m.vers) + (EncU32(m.prot) + EncU32(m.port)));
    dest.WriteU32(m.vers);
    dest.WriteU32(m.prot);
    dest.WriteU32(m.port);
  }

  method SerializeNode(node: PmapList, dest: Writer)
    modifies dest
    ensures dest.data == old(dest.data) + EncNode(node)
    decreases node
  {
    Regroup2(dest.data, EncMapping(node.map_), EncList(node.next));
    SerializeMapping(node.map_, dest);
    SerializeList(node.next, dest);
  }

  method SerializeList(l: Option<PmapList>, dest: Writer)
    modifies dest
    ensures dest.data == old(dest.data) + EncList(l)
    decreases l
  {
    match l {
      case None =>
        dest.WriteBool(false);
      case Some(node) =>
        Regroup2(dest.data, EncBool(true), EncNode(node));
        dest.WriteBool(true);
        SerializeNode(node, dest);
    }
  }

  // ---- the dump ----------------------------------------------------------

  function Items(l: Option<PmapList>): seq<Mapping>
    decreases l
  {
    if l.None? then [] else [l.value.map_] + Items(l.value.next)
  }

  /** The list is built from its last node, so it ends up in table order. */
  method BuildList(entries: seq<Mapping>) returns (head: Option<PmapList>)
    ensures Items(head) == entries
  {
    head := None;
    var i := |entries|;
    while i > 0
      invariant 0 <= i <= |entries|
      invariant Items(head) == entries[i..]
    {
      i := i - 1;
      head := Some(PmapList(entries[i], head));
    }
  }

  /** What a client reads from a dump: the mappings, if the reply is accepted. */
  function Dumped(xid: u32, reply: bytes): Option<seq<Mapping>> {
    var (msg, s1) :- DecMsg(reply);
    var (list, rest) :- DecList(s1);
    if msg == SuccessReply(xid) && rest == [] then Some(Items(list)) else None
  }

  lemma DumpDecodes(xid: u32, l: Option<PmapList>)
    ensures Dumped(xid, EncMsg(SuccessReply(xid)) + EncList(l)) == Some(Items(l))
  {
    MsgRoundTrip(SuccessReply(xid), EncList(l));
    assert EncList(l) + [] == EncList(l);
    ListRoundTrip(l, []);
  }

  /** Whatever order the table yields its entries in, the client reads exactly
      those, in that order; an empty table is the terminating zero word alone. */
  method PmapProcDump(xid: u32, entries: seq<Mapping>, output: Writer)
    modifies output
    ensures old(output.data) <= output.data
    ensures Dumped(xid, output.data[|old(output.data)|..]) == Some(entries)
  {
    ghost var start := output.data;
    var list := BuildList(entries);
    output.WriteAll(EncMsg(SuccessReply(xid)));
    if list.Some? {
      SerializeList(list, output);
    } else {
      output.WriteU32(0);
    }
    var reply := EncMsg(SuccessReply(xid)) + EncList(list);
    Regroup2(start, EncMsg(SuccessReply(xid)), EncList(list));
    assert output.data[|start|..] == reply;
    DumpDecodes(xid, list);
  }
}
