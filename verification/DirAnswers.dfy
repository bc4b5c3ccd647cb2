/** The status a READDIR or READDIRPLUS client reads, and how full a page is. */
module DirAnswers {
  import opened Wrappers
  import opened Xdr
  import opened XdrRpc
  import opened XdrNfs
  import opened NfsReply
  import opened DirPage
  import opened DirListing

  // ---- the verifier ------------------------------------------------------

  /** The client sent no verifier, or the directory's modification time. */
  predicate VerifierFits(q: Request) {
    || q.args.cookieverf == [0, 0, 0, 0, 0, 0, 0, 0]
    || (q.dirAttr.Some? && q.args.cookieverf == EncTime(q.dirAttr.value.mtime))
  }

  /** The verifier that comes with a page is good for as long as the modification time
      stays, and no longer, unless it is the one that is always good. */
  lemma VerifierGoodIff(q: Request, later: Request)
    requires later.args.cookieverf == Verifier(q.dirAttr) != [0, 0, 0, 0, 0, 0, 0, 0]
    ensures VerifierFits(later) <==> later.dirAttr.Some? && later.dirAttr.value.mtime == q.dirAttr.value.mtime
  {
    TimeRoundTrip(q.dirAttr.value.mtime, []);
    assert EncTime(q.dirAttr.value.mtime) + [] == EncTime(q.dirAttr.value.mtime);
    if later.dirAttr.Some? {
      TimeRoundTrip(later.dirAttr.value.mtime, []);
      assert EncTime(later.dirAttr.value.mtime) + [] == EncTime(later.dirAttr.value.mtime);
    }
  }

  // ---- one entry on a page -----------------------------------------------

  function NameBytes(entries: seq<DirEntry>): nat {
    if entries == [] then 0 else |entries[0].name| + NameBytes(entries[1..])
  }

  lemma {:induction false} TotalDirIs(entries: seq<DirEntry>)
    ensures TotalDir(entries) == 20 * |entries| + NameBytes(entries)
  {
    if entries != [] {
      TotalDirIs(entries[1..]);
    }
  }

  /** A reply with these entries is below the client's limit less 120 bytes, and for
      READDIRPLUS their names and ids are below dircount. */
  predicate Fits(q: Request, entries: seq<DirEntry>) {
    && |PageReply(q, entries, true)| < ByteLimit(q) - 120
    && (q.proc.ReadDirPlus? ==> 20 * |entries| + NameBytes(entries) < q.args.dircount)
  }

  lemma PageReplyLength(q: Request, entries: seq<DirEntry>, eof: bool)
    ensures |PageReply(q, entries, eof)| == |Head(q)| + Total(q.proc, entries) + 8
  {
    EncoderLength(q.proc);
    EncItemsLength(EncoderOf(q.proc), q.proc, entries, q.args.cookie);
  }

  /** The same as the server counts it. */
  ghost predicate WithinTerms(t: Terms, entries: seq<DirEntry>) {
    && t.used + Total(t.proc, entries) < t.budget.maxBytes
    && (t.budget.maxDir.Some? ==> TotalDir(entries) < t.budget.maxDir.value)
  }

  lemma FitsIs(q: Request, entries: seq<DirEntry>)
    ensures Fits(q, entries) <==> WithinTerms(TermsOf(q), entries)
  {
    PageReplyLength(q, entries, true);
    TotalDirIs(entries);
  }

  lemma FitsAloneIs(q: Request, e: DirEntry)
    ensures FitsAlone(TermsOf(q), e) <==> Fits(q, [e])
  {
    FitsIs(q, [e]);
    OneEntry(q.proc, e);
  }

  lemma OneEntry(proc: Proc, e: DirEntry)
    ensures Total(proc, [e]) == ItemLen(proc, e) && TotalDir([e]) == DirBytes(e)
  {
    assert [e][0] == e && [e][1..] == [];
    assert Total(proc, []) == 0 && TotalDir([]) == 0;
  }

  // ---- the status --------------------------------------------------------

  /** The status of the checks in their order: the handle, read access, the verifier, and
      the listing; then that of the page. */
  function Status(q: Request): u32 {
    if q.handle.Some? then StatNumber(q.handle.value)
    else if q.access.Denied? then 13
    else if q.access.Refused? then StatNumber(q.access.stat)
    else if !VerifierFits(q) then 10003
    else if q.listing.Error? then StatNumber(q.listing.error)
    else ListedStatus(q, q.listing.value)
  }

  /** A cookie beyond the listing, or an entry there that fits no page. */
  function ListedStatus(q: Request, all: Directory): u32 {
    if q.args.cookie > |all| then 10003
    else if q.args.cookie < |all| && !Fits(q, [all[q.args.cookie]]) then 10005
    else 0
  }

  function StatusOf(page: Page): u32 {
    if page.Refusal? then StatNumber(page.stat) else 0
  }

  lemma CutStatusIs(t: Terms, all: Directory, cookie: u64)
    requires t.estimate >= 1
    ensures StatusOf(CutPage(t, all, cookie)) ==
      if cookie > |all| then 10003 else if cookie < |all| && !FitsAlone(t, all[cookie]) then 10005 else 0
  {
    PageIsSlice(t, all, cookie);
  }

  lemma CutStatus(q: Request, all: Directory)
    ensures StatusOf(CutPage(TermsOf(q), all, q.args.cookie)) == ListedStatus(q, all)
  {
    CutStatusIs(TermsOf(q), all, q.args.cookie);
    if q.args.cookie < |all| {
      FitsAloneIs(q, all[q.args.cookie]);
    }
  }

  /** Whether the checks come as far as the listing. */
  predicate Reaches(q: Request) {
    q.handle.None? && q.access.Granted? && VerifierFits(q) && q.listing.Ok?
  }

  lemma PageIfReached(q: Request)
    requires Reaches(q)
    ensures PageOf(q) == CutPage(TermsOf(q), q.listing.value, q.args.cookie)
    ensures Status(q) == ListedStatus(q, q.listing.value)
  {
    VerifierFitsIs(q);
  }

  lemma RefusedIfNot(q: Request)
    requires !Reaches(q)
    ensures Status(q) == StatusOf(PageOf(q))
  {
    VerifierFitsIs(q);
  }

  lemma VerifierFitsIs(q: Request)
    ensures VerifierFits(q) <==> q.args.cookieverf == NO_VERIFIER || q.args.cookieverf == Verifier(q.dirAttr)
  {
  }

  lemma PageOfStatus(q: Request)
    ensures Status(q) == StatusOf(PageOf(q))
  {
    if Reaches(q) {
      PageIfReached(q);
      CutStatus(q, q.listing.value);
    } else {
      RefusedIfNot(q);
    }
  }

  /** Any reply is read as this status under the request's transaction. */
  lemma ReplyStatus(q: Request, rest: bytes)
    ensures var head := DecAnswered(ReplyBytes(q) + rest);
      head.Some? && head.value.0 == Answered(q.xid, Status(q))
  {
    PageOfStatus(q);
    match PageOf(q)
    case Refusal(stat) =>
      ErrorReplyDecodes(q.xid, stat, if q.handle.Some? then None else q.dirAttr, rest);
    case Entries(entries, eof) =>
      var tail := EncPostOpAttr(q.dirAttr) + EncFixed(Verifier(q.dirAttr));
      var items := EncItems(EncoderOf(q.proc), entries, q.args.cookie) + (EncBool(false) + EncBool(eof));
      Regroup2(Head(q), items, rest);
      Regroup3(EncMsg(SuccessReply(q.xid)), EncU32(StatNumber(Ok3)), tail, items + rest);
      AnsweredRoundTrip(q.xid, StatNumber(Ok3), tail + (items + rest));
  }

  /** The checks report errors, not success. */
  predicate Genuine(q: Request) {
    q.handle != Some(Ok3) && q.access != Access.Refused(Ok3) && q.listing != Error(Ok3)
  }

  lemma StatusZeroIff(q: Request)
    requires Genuine(q)
    ensures Status(q) == 0 <==>
      && q.handle.None? && q.access.Granted? && VerifierFits(q) && q.listing.Ok?
      && q.args.cookie <= |q.listing.value|
      && (q.args.cookie < |q.listing.value| ==> Fits(q, [q.listing.value[q.args.cookie]]))
  {
    if Reaches(q) {
      ListedZeroIff(q, q.listing.value);
    }
  }

  lemma ListedZeroIff(q: Request, all: Directory)
    ensures ListedStatus(q, all) == 0 <==>
      q.args.cookie <= |all| && (q.args.cookie < |all| ==> Fits(q, [all[q.args.cookie]]))
  {
  }

  lemma PageNeedsOk(plus: bool, s: bytes)
    requires DecPage(plus, s).Some?
    ensures DecAnswered(s).Some? && DecAnswered(s).value.0.stat == 0
  {
  }

  /** A client reads a page if and only if its handle resolved, it may read, its verifier
      fits, the directory could be listed, the cookie is within the listing, and the
      entry there fits a page. */
  lemma PageIff(q: Request)
    requires Genuine(q)
    ensures DecPage(q.proc.ReadDirPlus?, ReplyBytes(q)).Some? <==>
      && q.handle.None? && q.access.Granted? && VerifierFits(q) && q.listing.Ok?
      && q.args.cookie <= |q.listing.value|
      && (q.args.cookie < |q.listing.value| ==> Fits(q, [q.listing.value[q.args.cookie]]))
  {
    StatusZeroIff(q);
    ReadIff(q);
  }

  lemma ReadIff(q: Request)
    requires Genuine(q)
    ensures DecPage(q.proc.ReadDirPlus?, ReplyBytes(q)).Some? <==> Status(q) == 0
  {
    var reply := ReplyBytes(q);
    assert reply + [] == reply;
    ReplyStatus(q, []);
    if DecPage(q.proc.ReadDirPlus?, reply).Some? {
      PageNeedsOk(q.proc.ReadDirPlus?, reply);
    } else if Status(q) == 0 {
      ZeroIsPage(q);
      PageDecodes(q, []);
    }
  }

  lemma ZeroIsPage(q: Request)
    requires Genuine(q) && Status(q) == 0
    ensures PageOf(q).Entries?
  {
    StatusZeroIff(q);
    PageIsSlice(TermsOf(q), q.listing.value, q.args.cookie);
    PageOfStatus(q);
  }

  // ---- how full a page is ------------------------------------------------

  /** Entries are committed until one does not fit any more. */
  lemma {:induction false} FillIsFull(proc: Proc, b: Budget, entries: seq<DirEntry>, used: nat, dirUsed: nat)
    ensures var n := Fill(proc, b, entries, used, dirUsed);
      n < |entries| ==>
        || used + Total(proc, entries[..n + 1]) >= b.maxBytes
        || (b.maxDir.Some? && dirUsed + TotalDir(entries[..n + 1]) >= b.maxDir.value)
    decreases entries
  {
    var n := Fill(proc, b, entries, used, dirUsed);
    if n < |entries| {
      assert entries[..n + 1][1..] == entries[1..][..n] && entries[..n + 1][0] == entries[0];
      if n > 0 {
        FillIsFull(proc, b, entries[1..], used + ItemLen(proc, entries[0]), dirUsed + DirBytes(entries[0]));
      }
    }
  }

  lemma SliceOfSlice(all: Directory, i: nat, j: nat, k: nat)
    requires i + k <= j <= |all|
    ensures all[i..j][..k] == all[i..i + k]
  {
  }

  /** A page of a listing, as full as its estimate and the limits allow. */
  ghost predicate FullCut(t: Terms, all: Directory, cookie: nat, entries: seq<DirEntry>, eof: bool) {
    && |entries| <= t.estimate && (entries != [] ==> WithinTerms(t, entries))
    && (!eof ==>
      && cookie + |entries| < |all|
      && (|entries| == t.estimate || !WithinTerms(t, all[cookie..cookie + |entries| + 1])))
  }

  lemma CutIsFill(t: Terms, all: Directory, cookie: u64, page: Page) returns (slice: seq<DirEntry>)
    requires t.estimate >= 1 && CutPage(t, all, cookie) == page && page.Entries?
    ensures cookie + |slice| <= |all| && slice == all[cookie..cookie + |slice|]
    ensures |slice| <= t.estimate && (|slice| == t.estimate || cookie + |slice| == |all|)
    ensures var n := Fill(t.proc, t.budget, slice, t.used, 0);
      page.entries == slice[..n] && (page.eof <==> n == |slice| && cookie + n == |all|)
  {
    ReadDirIndexDirect(all, cookie, t.estimate);
    slice := ReadDirFrom(all, cookie, t.estimate).value.entries;
  }

  lemma CutIsFull(t: Terms, all: Directory, cookie: u64, page: Page)
    requires t.estimate >= 1 && CutPage(t, all, cookie) == page && page.Entries?
    ensures FullCut(t, all, cookie, page.entries, page.eof)
  {
    var slice := CutIsFill(t, all, cookie, page);
    var n := Fill(t.proc, t.budget, slice, t.used, 0);
    FillWithin(t.proc, t.budget, slice, t.used, 0);
    FillIsFull(t.proc, t.budget, slice, t.used, 0);
    if n < |slice| {
      SliceOfSlice(all, cookie, cookie + |slice|, n + 1);
    }
  }

  /** The same for a reply: at most one entry per sixteen bytes of dircount, as many as that
      or one more would not fit. */
  predicate Full(q: Request, all: Directory, entries: seq<DirEntry>, eof: bool) {
    && |entries| <= Max(1, q.args.dircount / 16)
    && (entries != [] ==> Fits(q, entries))
    && (!eof ==>
      && q.args.cookie + |entries| < |all|
      && (|entries| == Max(1, q.args.dircount / 16)
          || !Fits(q, all[q.args.cookie..q.args.cookie + |entries| + 1])))
  }

  lemma FullIs(q: Request, all: Directory, entries: seq<DirEntry>, eof: bool)
    requires FullCut(TermsOf(q), all, q.args.cookie, entries, eof)
    ensures Full(q, all, entries, eof)
  {
    FitsIs(q, entries);
    if !eof {
      FitsIs(q, all[q.args.cookie..q.args.cookie + |entries| + 1]);
    }
  }

  lemma PageIsCut(q: Request, page: Page)
    requires PageOf(q) == page && page.Entries?
    ensures q.listing.Ok? && CutPage(TermsOf(q), q.listing.value, q.args.cookie) == page
  {
  }

  /** Every page is as full as the limits allow. */
  lemma PageIsFull(q: Request, page: Page)
    requires PageOf(q) == page && page.Entries?
    ensures q.listing.Ok? && Full(q, q.listing.value, page.entries, page.eof)
  {
    PageIsCut(q, page);
    CutIsFull(TermsOf(q), q.listing.value, q.args.cookie, page);
    FullIs(q, q.listing.value, page.entries, page.eof);
  }
}
