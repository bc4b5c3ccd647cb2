/** READDIR and READDIRPLUS: one page of a directory under the client's byte
    budgets (RFC 1813, sections 3.3.16 and 3.3.17). */
module DirPage {
  import opened Wrappers
  import opened Xdr
  import opened XdrRpc
  import opened XdrNfs
  import opened NfsReply

  datatype DirEntry = DirEntry(fileid: u64, name: Name, attr: Fattr3)

  /** A listing fits in memory, so its indices fit a cookie. */
  type Directory = s: seq<DirEntry> | |s| < 0x1_0000_0000_0000_0000

  /** The two procedures differ in what an entry carries and in their budgets. */
  datatype Proc = ReadDir | ReadDirPlus(generation: u64)

  datatype Args = Args(cookie: u64, cookieverf: bytes, dircount: u32, maxcount: u32)

  // ---- the file system's side --------------------------------------------

  datatype Slice = Slice(entries: seq<DirEntry>, end: bool)

  /** readdir from an entry index: at most `max` entries, but always one when any is left. */
  function ReadDirFrom(all: Directory, start: nat, max: nat): Result<Slice, Stat> {
    if start > |all| then Error(BadCookie3)
    else
      var stop := Min(|all|, start + Max(1, max));
      Ok(Slice(all[start..stop], stop == |all|))
  }

  method ListFrom(all: Directory, start: nat, max: nat) returns (r: Result<Slice, Stat>)
    ensures r == ReadDirFrom(all, start, max)
  {
    if start > |all| {
      return Error(BadCookie3);
    }
    var remaining := |all| - start;
    var entries: seq<DirEntry> := [];
    var i := start;
    while i < |all|
      invariant start <= i <= |all| && entries == all[start..i]
      invariant i < |all| ==> i - start < Max(1, max)
      invariant i - start <= Max(1, max)
    {
      entries := entries + [all[i]];
      i := i + 1;
      if |entries| >= max {
        break;
      }
    }
    assert i == Min(|all|, start + Max(1, max)) && entries == all[start..i];
    return Ok(Slice(entries, |entries| == remaining));
  }

  function SaturatingAdd(a: u64, b: nat): u64 {
    if a + b < 0x1_0000_0000_0000_0000 then a + b else 0xFFFF_FFFF_FFFF_FFFF
  }

  /** The default readdir_index: list from the beginning, then drop the first `start` entries. */
  function ReadDirIndex(all: Directory, start: u64, max: nat): Result<Slice, Stat> {
    match ReadDirFrom(all, 0, SaturatingAdd(start, max))
    case Error(e) => Error(e)
    case Ok(s) =>
      if start > |s.entries| || (start == |s.entries| && !s.end) then Error(BadCookie3)
      else Ok(Slice(s.entries[start..], s.end))
  }

  /** It agrees with listing from the index itself: nothing is lost by rescanning. */
  lemma ReadDirIndexDirect(all: Directory, start: u64, max: nat)
    requires max >= 1
    ensures ReadDirIndex(all, start, max) == ReadDirFrom(all, start, max)
  {
    if start <= |all| {
      var stop := Min(|all|, Max(1, SaturatingAdd(start, max)));
      assert stop == Min(|all|, start + max);
      assert all[0..stop][start..] == all[start..stop];
    }
  }

  // ---- budgets -----------------------------------------------------------

  /** Limits on the reply's bytes and, for READDIRPLUS, on the directory bytes. */
  datatype Budget = Budget(maxBytes: nat, maxDir: Option<nat>)

  function BudgetOf(proc: Proc, args: Args): Budget {
    match proc
    case ReadDir => Budget(Max(0, args.dircount - 128), None)
    case ReadDirPlus(_) => Budget(Max(0, args.maxcount - 128), Some(args.dircount))
  }

  function Estimate(args: Args): (n: nat)
    ensures n >= 1
  {
    Max(1, args.dircount / 16)
  }

  /** The flag and entry written for one directory entry. */
  function EncItem(proc: Proc, e: DirEntry, cookie: u64): bytes {
    match proc
    case ReadDir => EncBool(true) + EncEntry(Entry3(e.fileid, e.name, cookie))
    case ReadDirPlus(generation) =>
      EncBool(true) + EncEntryPlus(
        EntryPlus3(Entry3(e.fileid, e.name, cookie), Some(e.attr), Some(IdToFh(generation, e.fileid))))
  }

  function ItemLen(proc: Proc, e: DirEntry): nat {
    var entry := 24 + |e.name| + PaddingLen(|e.name|);
    if proc.ReadDir? then entry else entry + 88 + 24
  }

  lemma ItemLength(proc: Proc, e: DirEntry, cookie: u64)
    ensures |EncItem(proc, e, cookie)| == ItemLen(proc, e)
  {
  }

  function DirBytes(e: DirEntry): nat {
    8 + 4 + |e.name| + 8
  }

  predicate Within(proc: Proc, b: Budget, e: DirEntry, used: nat, dirUsed: nat) {
    && ItemLen(proc, e) + used < b.maxBytes
    && (b.maxDir.Some? ==> DirBytes(e) + dirUsed < b.maxDir.value)
  }

  /** How many of the entries are committed to a page. */
  function Fill(proc: Proc, b: Budget, entries: seq<DirEntry>, used: nat, dirUsed: nat): (n: nat)
    ensures n <= |entries|
    decreases entries
  {
    if entries == [] || !Within(proc, b, entries[0], used, dirUsed) then 0
    else 1 + Fill(proc, b, entries[1..], used + ItemLen(proc, entries[0]), dirUsed + DirBytes(entries[0]))
  }

  /** How one entry is written, given its cookie. */
  type Encoder = (DirEntry, u64) -> bytes

  function EncoderOf(proc: Proc): Encoder {
    (e: DirEntry, cookie: u64) => EncItem(proc, e, cookie)
  }

  /** Consecutive entries; each carries the cookie of the entry after it. */
  function EncItems(encode: Encoder, entries: seq<DirEntry>, cookie: u64): bytes {
    if entries == [] then []
    else
      var n := |entries| - 1;
      EncItems(encode, entries[..n], cookie) + encode(entries[n], SaturatingAdd(cookie, n + 1))
  }

  // ---- replies -----------------------------------------------------------

  datatype Request = Request(
    xid: u32, proc: Proc, args: Args, handle: Option<Stat>, dirAttr: Option<Fattr3>, access: Access,
    listing: Result<Directory, Stat>)

  const NO_VERIFIER: bytes := [0, 0, 0, 0, 0, 0, 0, 0]

  /** The verifier is the directory's modification time. */
  function Verifier(dirAttr: Option<Fattr3>): (v: bytes)
    ensures |v| == 8
  {
    if dirAttr.Some? then EncU32(dirAttr.value.mtime.seconds) + EncU32(dirAttr.value.mtime.nseconds) else NO_VERIFIER
  }

  function Head(q: Request): bytes {
    EncMsg(SuccessReply(q.xid)) + (EncU32(StatNumber(Ok3)) + (EncPostOpAttr(q.dirAttr) + EncFixed(Verifier(q.dirAttr))))
  }

  function PageReply(q: Request, entries: seq<DirEntry>, eof: bool): bytes {
    Head(q) + (EncItems(EncoderOf(q.proc), entries, q.args.cookie) + (EncBool(false) + EncBool(eof)))
  }

  /** The meaning of a reply. */
  datatype Page = Entries(entries: seq<DirEntry>, eof: bool) | Refusal(stat: Stat)

  /** What decides how much of a listing goes into one page. */
  datatype Terms = Terms(proc: Proc, budget: Budget, estimate: nat, used: nat)

  function TermsOf(q: Request): Terms {
    Terms(q.proc, BudgetOf(q.proc, q.args), Estimate(q.args), |Head(q)|)
  }

  function CutPage(t: Terms, all: Directory, cookie: u64): Page {
    match ReadDirIndex(all, cookie, t.estimate)
    case Error(stat) => Refusal(stat)
    case Ok(s) =>
      var n := Fill(t.proc, t.budget, s.entries, t.used, 0);
      if n == 0 && s.entries != [] then Refusal(TooSmall3)
      else Entries(s.entries[..n], n == |s.entries| && s.end)
  }

  function PageOf(q: Request): Page {
    if q.handle.Some? then Refusal(q.handle.value)
    else if q.access.Denied? then Refusal(Acces3)
    else if q.access.Refused? then Refusal(q.access.stat)
    else if q.args.cookieverf != NO_VERIFIER && q.args.cookieverf != Verifier(q.dirAttr) then Refusal(BadCookie3)
    else if q.listing.Error? then Refusal(q.listing.error)
    else CutPage(TermsOf(q), q.listing.value, q.args.cookie)
  }

  function ReplyBytes(q: Request): bytes {
    match PageOf(q)
    case Refusal(stat) => ErrorReply(q.xid, stat, if q.handle.Some? then None else q.dirAttr)
    case Entries(entries, eof) => PageReply(q, entries, eof)
  }

  // ---- the handler -------------------------------------------------------

  /** A byte sink that counts what passes through it. */
  class WriteCounter {
    var inner: bytes
    var count: nat

    ghost predicate Valid()
      reads this
    {
      count == |inner|
    }

    constructor ()
      ensures Valid() && inner == []
    {
      inner, count := [], 0;
    }

    method Write(b: bytes)
      requires Valid()
      modifies this
      ensures Valid() && inner == old(inner) + b
    {
      inner := inner + b;
      count := count + |b|;
    }
  }

  method NfsProcReadDir(q: Request, output: Writer)
    modifies output
    ensures output.data == old(output.data) + ReplyBytes(q)
  {
    if q.handle.Some? {
      WriteError(q.xid, q.handle.value, None, output);
      return;
    }
    match q.access {
      case Granted =>
      case Denied =>
        WriteError(q.xid, Acces3, q.dirAttr, output);
        return;
      case Refused(stat) =>
        WriteError(q.xid, stat, q.dirAttr, output);
        return;
    }
    if q.args.cookieverf != NO_VERIFIER && q.args.cookieverf != Verifier(q.dirAttr) {
      WriteError(q.xid, BadCookie3, q.dirAttr, output);
      return;
    }
    if q.listing.Error? {
      WriteError(q.xid, q.listing.error, q.dirAttr, output);
      return;
    }
    var slice := ReadDirIndex(q.listing.value, q.args.cookie, Estimate(q.args));
    if slice.Error? {
      WriteError(q.xid, slice.error, q.dirAttr, output);
      return;
    }
    var counting := new WriteCounter();
    counting.Write(Head(q));
    assert counting.inner == Head(q);
    EncoderLength(q.proc);
    var budget := BudgetOf(q.proc, q.args);
    var written := WriteItems(q.proc, budget, q.args.cookie, slice.value.entries, EncoderOf(q.proc), counting);
    if written == 0 && slice.value.entries != [] {
      WriteError(q.xid, TooSmall3, q.dirAttr, output);
      return;
    }
    counting.Write(EncBool(false));
    counting.Write(EncBool(written == |slice.value.entries| && slice.value.end));
    ghost var items := EncItems(EncoderOf(q.proc), slice.value.entries[..written], q.args.cookie);
    Appended3(Head(q), items, EncBool(false), EncBool(written == |slice.value.entries| && slice.value.end));
    output.WriteAll(counting.inner);
  }

  /** After `written` entries: what the rest will add to the count. */
  ghost predicate Counted(
    proc: Proc, b: Budget, entries: seq<DirEntry>, start: nat, used: nat, written: nat, dirUsed: nat)
    requires written <= |entries|
  {
    Fill(proc, b, entries, start, 0) == written + Fill(proc, b, entries[written..], used, dirUsed)
  }

  lemma FillStops(proc: Proc, b: Budget, entries: seq<DirEntry>, used: nat, dirUsed: nat)
    requires entries != [] && !Within(proc, b, entries[0], used, dirUsed)
    ensures Fill(proc, b, entries, used, dirUsed) == 0
  {
  }

  lemma CountedNext(proc: Proc, b: Budget, entries: seq<DirEntry>, start: nat, used: nat, written: nat, dirUsed: nat)
    requires written < |entries| && Counted(proc, b, entries, start, used, written, dirUsed)
    requires Within(proc, b, entries[written], used, dirUsed)
    ensures Counted(proc, b, entries, start, used + ItemLen(proc, entries[written]), written + 1,
                    dirUsed + DirBytes(entries[written]))
  {
    assert entries[written..][1..] == entries[written + 1..];
  }

  lemma EncoderLength(proc: Proc)
    ensures forall e, cookie :: |EncoderOf(proc)(e, cookie)| == ItemLen(proc, e)
  {
    forall e, cookie ensures |EncoderOf(proc)(e, cookie)| == ItemLen(proc, e) {
      ItemLength(proc, e, cookie);
    }
  }

  lemma AppendItem(start: bytes, encode: Encoder, entries: seq<DirEntry>, cookie: u64, i: nat)
    requires i < |entries|
    ensures (start + EncItems(encode, entries[..i], cookie)) + encode(entries[i], SaturatingAdd(cookie, i + 1))
      == start + EncItems(encode, entries[..i + 1], cookie)
  {
    assert entries[..i + 1][..i] == entries[..i];
    Regroup2(start, EncItems(encode, entries[..i], cookie), encode(entries[i], SaturatingAdd(cookie, i + 1)));
  }

  /** Writes an entry's buffer out if both budgets still allow it. */
  method Commit(proc: Proc, budget: Budget, e: DirEntry, buffer: bytes, dirUsed: nat, counting: WriteCounter)
    returns (fits: bool)
    requires counting.Valid() && |buffer| == ItemLen(proc, e)
    modifies counting
    ensures counting.Valid() && fits == Within(proc, budget, e, |old(counting.inner)|, dirUsed)
    ensures counting.inner == old(counting.inner) + if fits then buffer else []
  {
    if |buffer| + counting.count < budget.maxBytes
      && (budget.maxDir.Some? ==> DirBytes(e) + dirUsed < budget.maxDir.value)
    {
      counting.Write(buffer);
      return true;
    }
    assert counting.inner + [] == counting.inner;
    return false;
  }

  /** The entry loop: each entry goes to its own buffer first and is committed while both budgets allow. */
  method WriteItems(
    proc: Proc, budget: Budget, cookie: u64, entries: seq<DirEntry>, encode: Encoder, counting: WriteCounter)
    returns (written: nat)
    requires counting.Valid() && forall e, cookie :: |encode(e, cookie)| == ItemLen(proc, e)
    modifies counting
    ensures counting.Valid()
    ensures written == Fill(proc, budget, entries, |old(counting.inner)|, 0)
    ensures counting.inner == old(counting.inner) + EncItems(encode, entries[..written], cookie)
  {
    ghost var start := counting.inner;
    var dirUsed: nat := 0;
    var index := cookie;
    written := 0;
    assert entries[0..] == entries && entries[..0] == [] && start + [] == start;
    while written < |entries|
      invariant 0 <= written <= |entries| && counting.Valid()
      invariant Counted(proc, budget, entries, |start|, counting.count, written, dirUsed)
      invariant index == SaturatingAdd(cookie, written)
      invariant counting.inner == start + EncItems(encode, entries[..written], cookie)
    {
      var e := entries[written];
      index := SaturatingAdd(index, 1);
      var buffer := encode(e, index);
      var fits := Commit(proc, budget, e, buffer, dirUsed, counting);
      if !fits {
        FillStops(proc, budget, entries[written..], counting.count, dirUsed);
        break;
      }
      CountedNext(proc, budget, entries, |start|, |counting.inner| - |buffer|, written, dirUsed);
      AppendItem(start, encode, entries, cookie, written);
      dirUsed := dirUsed + DirBytes(e);
      written := written + 1;
    }
  }
}
