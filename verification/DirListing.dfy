/** Paging refines the full listing: what one page holds, what its bytes decode
    to, and what a client resuming from the last cookie ends up with. */
module DirListing {
  import opened Wrappers
  import opened Xdr
  import opened XdrRpc
  import opened XdrNfs
  import opened NfsReply
  import opened DirPage

  // ---- one page ----------------------------------------------------------

  /** The request gets as far as listing `all`. */
  predicate Listable(q: Request, all: Directory) {
    && q.handle.None? && q.access.Granted? && q.listing == Ok(all)
    && (q.args.cookieverf == NO_VERIFIER || q.args.cookieverf == Verifier(q.dirAttr))
  }

  /** The entry fits a page of its own. */
  predicate FitsAlone(t: Terms, e: DirEntry) {
    Within(t.proc, t.budget, e, t.used, 0)
  }

  function Total(proc: Proc, entries: seq<DirEntry>): nat {
    if entries == [] then 0 else ItemLen(proc, entries[0]) + Total(proc, entries[1..])
  }

  function TotalDir(entries: seq<DirEntry>): nat {
    if entries == [] then 0 else DirBytes(entries[0]) + TotalDir(entries[1..])
  }

  /** The committed entries stay below both limits, and every one of them fits alone. */
  lemma {:induction false} FillWithin(proc: Proc, b: Budget, entries: seq<DirEntry>, used: nat, dirUsed: nat)
    ensures var taken := entries[..Fill(proc, b, entries, used, dirUsed)];
      && (taken != [] ==> used + Total(proc, taken) < b.maxBytes)
      && (taken != [] && b.maxDir.Some? ==> dirUsed + TotalDir(taken) < b.maxDir.value)
      && (forall e | e in taken :: ItemLen(proc, e) + used < b.maxBytes)
      && (forall e | e in taken && b.maxDir.Some? :: DirBytes(e) + dirUsed < b.maxDir.value)
    decreases entries
  {
    var n := Fill(proc, b, entries, used, dirUsed);
    if n > 0 {
      FillWithin(proc, b, entries[1..], used + ItemLen(proc, entries[0]), dirUsed + DirBytes(entries[0]));
      assert entries[..n][1..] == entries[1..][..n - 1];
      assert forall e | e in entries[..n] :: e == entries[0] || e in entries[1..][..n - 1];
    }
  }

  /** A page is refused as too small exactly when its first entry does not fit
      alone, and a cookie exactly when it lies beyond the listing; otherwise the
      page is a slice from the cookie, not empty unless at the end, with eof
      exactly on the slice that reaches the end. */
  lemma PageIsSlice(t: Terms, all: Directory, start: u64)
    requires t.estimate >= 1
    ensures var page := CutPage(t, all, start);
      && (page == Refusal(BadCookie3) <==> start > |all|)
      && (page == Refusal(TooSmall3) <==> start < |all| && !FitsAlone(t, all[start]))
      && (start <= |all| && page != Refusal(TooSmall3) ==>
        && page.Entries? && start + |page.entries| <= |all|
        && page.entries == all[start..start + |page.entries|]
        && (page.entries == [] <==> start == |all|)
        && (page.eof <==> start + |page.entries| == |all|)
        && (forall e | e in page.entries :: FitsAlone(t, e)))
  {
    ReadDirIndexDirect(all, start, t.estimate);
    if start <= |all| {
      var s := ReadDirFrom(all, start, t.estimate).value;
      var n := Fill(t.proc, t.budget, s.entries, t.used, 0);
      FillWithin(t.proc, t.budget, s.entries, t.used, 0);
      assert s.entries[..n] == all[start..start + n];
      if start < |all| {
        assert s.entries[0] == all[start];
      }
    }
  }

  lemma {:induction false} EncItemsLength(encode: Encoder, proc: Proc, entries: seq<DirEntry>, cookie: u64)
    requires forall e, c :: |encode(e, c)| == ItemLen(proc, e)
    ensures |EncItems(encode, entries, cookie)| == Total(proc, entries)
    decreases |entries|
  {
    if entries != [] {
      var n := |entries| - 1;
      EncItemsLength(encode, proc, entries[..n], cookie);
      TotalAppend(proc, entries[..n], entries[n]);
      assert entries[..n] + [entries[n]] == entries;
    }
  }

  lemma {:induction false} TotalAppend(proc: Proc, entries: seq<DirEntry>, e: DirEntry)
    ensures Total(proc, entries + [e]) == Total(proc, entries) + ItemLen(proc, e)
    decreases entries
  {
    if entries == [] {
      assert [e][1..] == [] && entries + [e] == [e];
    } else {
      assert (entries + [e])[1..] == entries[1..] + [e];
      TotalAppend(proc, entries[1..], e);
    }
  }

  /** The limit the client put on the reply: dircount for READDIR, maxcount for READDIRPLUS. */
  function ByteLimit(q: Request): nat {
    if q.proc.ReadDir? then q.args.dircount else q.args.maxcount
  }

  /** A page with entries is shorter than the client's limit less 120 bytes, and
      a READDIRPLUS page's directory bytes are below dircount. */
  lemma PageWithinLimits(q: Request)
    ensures PageOf(q).Entries? && PageOf(q).entries != [] ==>
      && |ReplyBytes(q)| < ByteLimit(q) - 120
      && (q.proc.ReadDirPlus? ==> TotalDir(PageOf(q).entries) < q.args.dircount)
  {
    if PageOf(q).Refusal? {
      return;
    }
    var s := ReadDirIndex(q.listing.value, q.args.cookie, Estimate(q.args)).value;
    FillWithin(q.proc, BudgetOf(q.proc, q.args), s.entries, |Head(q)|, 0);
    var page := PageOf(q);
    EncoderLength(q.proc);
    EncItemsLength(EncoderOf(q.proc), q.proc, page.entries, q.args.cookie);
  }

  // ---- decoding a page ---------------------------------------------------

  datatype Listed = Listed(items: seq<EntryPlus3>, eof: bool)

  datatype Decoded = Decoded(xid: u32, dirAttr: Option<Fattr3>, verifier: bytes, listed: Listed)

  /** One entry as the client reads it: READDIR entries carry neither attributes nor handle. */
  function DecItem(plus: bool, s: bytes): (r: Parse<EntryPlus3>)
    ensures r.Some? ==> |r.value.1| <= |s|
  {
    if plus then DecEntryPlus(s)
    else
      var (e, s1) :- DecEntry(s);
      Some((EntryPlus3(e, None, None), s1))
  }

  function DecItems(plus: bool, s: bytes): Parse<seq<EntryPlus3>>
    decreases |s|
  {
    var (more, s1) :- DecBool(s);
    if !more then Some(([], s1))
    else
      var (item, s2) :- DecItem(plus, s1);
      var (items, s3) :- DecItems(plus, s2);
      Some(([item] + items, s3))
  }

  function DecListed(plus: bool, s: bytes): Parse<Listed> {
    var (items, s1) :- DecItems(plus, s);
    var (eof, s2) :- DecBool(s1);
    Some((Listed(items, eof), s2))
  }

  /** An accepted reply with status OK, decoded as its client would. */
  function DecPage(plus: bool, s: bytes): Parse<Decoded> {
    var (msg, s1) :- DecMsg(s);
    var (stat, s2) :- DecU32(s1);
    if msg != SuccessReply(msg.xid) || stat != StatNumber(Ok3) then None
    else
      var (attr, s3) :- DecPostOpAttr(s2);
      var (verifier, s4) :- DecFixed(8, s3);
      var (listed, s5) :- DecListed(plus, s4);
      Some((Decoded(msg.xid, attr, verifier, listed), s5))
  }

  function WireItem(proc: Proc, e: DirEntry, cookie: u64): EntryPlus3 {
    match proc
    case ReadDir => EntryPlus3(Entry3(e.fileid, e.name, cookie), None, None)
    case ReadDirPlus(generation) =>
      EntryPlus3(Entry3(e.fileid, e.name, cookie), Some(e.attr), Some(IdToFh(generation, e.fileid)))
  }

  /** The slice on the wire: consecutive cookies counted from the request's cookie. */
  function WireItems(proc: Proc, entries: seq<DirEntry>, cookie: u64): (items: seq<EntryPlus3>)
    ensures |items| == |entries|
    ensures forall i | 0 <= i < |items| :: items[i] == WireItem(proc, entries[i], SaturatingAdd(cookie, i + 1))
  {
    seq(|entries|, i requires 0 <= i < |entries| => WireItem(proc, entries[i], SaturatingAdd(cookie, i + 1)))
  }

  lemma ItemDecodes(proc: Proc, e: DirEntry, cookie: u64, rest: bytes)
    ensures var flag := DecBool(EncItem(proc, e, cookie) + rest);
      && flag.Some? && flag.value.0
      && DecItem(proc.ReadDirPlus?, flag.value.1) == Some((WireItem(proc, e, cookie), rest))
  {
    var item := WireItem(proc, e, cookie);
    var body := if proc.ReadDir? then EncEntry(item.entry) else EncEntryPlus(item);
    Regroup2(EncBool(true), body, rest);
    BoolRoundTrip(true, body + rest);
    if proc.ReadDir? {
      EntryRoundTrip(item.entry, rest);
    } else {
      EntryPlusRoundTrip(item, rest);
    }
  }

  lemma {:induction false} EncItemsHead(encode: Encoder, entries: seq<DirEntry>, cookie: u64)
    requires entries != []
    ensures var next := SaturatingAdd(cookie, 1);
      EncItems(encode, entries, cookie) == encode(entries[0], next) + EncItems(encode, entries[1..], next)
    decreases |entries|
  {
    var n := |entries| - 1;
    var next := SaturatingAdd(cookie, 1);
    if n == 0 {
      assert entries[..0] == [] && entries[1..] == [];
    } else {
      EncItemsHead(encode, entries[..n], cookie);
      assert entries[..n][1..] == entries[1..][..n - 1] && entries[1..][n - 1] == entries[n];
      assert SaturatingAdd(next, n) == SaturatingAdd(cookie, n + 1);
      var last := encode(entries[n], SaturatingAdd(cookie, n + 1));
      assert EncItems(encode, entries[1..], next) == EncItems(encode, entries[..n][1..], next) + last;
      Regroup2(encode(entries[0], next), EncItems(encode, entries[..n][1..], next), last);
    }
  }

  lemma {:induction false} ItemsDecode(proc: Proc, entries: seq<DirEntry>, cookie: u64, tail: bytes)
    ensures DecItems(proc.ReadDirPlus?, EncItems(EncoderOf(proc), entries, cookie) + (EncBool(false) + tail))
         == Some((WireItems(proc, entries, cookie), tail))
    decreases |entries|
  {
    var end := EncBool(false) + tail;
    if entries == [] {
      assert EncItems(EncoderOf(proc), entries, cookie) + end == end;
      BoolRoundTrip(false, tail);
    } else {
      var next := SaturatingAdd(cookie, 1);
      EncItemsHead(EncoderOf(proc), entries, cookie);
      var more := EncItems(EncoderOf(proc), entries[1..], next);
      Regroup2(EncItem(proc, entries[0], next), more, end);
      ItemDecodes(proc, entries[0], next, more + end);
      ItemsDecode(proc, entries[1..], next, tail);
      WireItemsHead(proc, entries, cookie);
    }
  }

  lemma WireItemsHead(proc: Proc, entries: seq<DirEntry>, cookie: u64)
    requires entries != []
    ensures var next := SaturatingAdd(cookie, 1);
      WireItems(proc, entries, cookie) == [WireItem(proc, entries[0], next)] + WireItems(proc, entries[1..], next)
  {
  }

  lemma HeadDecodes(q: Request, rest: bytes)
    ensures DecPage(q.proc.ReadDirPlus?, Head(q) + rest) ==
      var o := DecListed(q.proc.ReadDirPlus?, rest);
      if o.None? then None
      else Some((Decoded(q.xid, q.dirAttr, Verifier(q.dirAttr), o.value.0), o.value.1))
  {
    var msg := SuccessReply(q.xid);
    var v := EncFixed(Verifier(q.dirAttr));
    var t2 := v + rest;
    var t1 := EncPostOpAttr(q.dirAttr) + t2;
    var t0 := EncU32(StatNumber(Ok3)) + t1;
    Regroup4(EncMsg(msg), EncU32(StatNumber(Ok3)), EncPostOpAttr(q.dirAttr), v, rest);
    MsgRoundTrip(msg, t0);
    U32RoundTrip(StatNumber(Ok3), t1);
    PostOpAttrRoundTrip(q.dirAttr, t2);
    FixedRoundTrip(Verifier(q.dirAttr), rest);
  }

  /** The bytes of a page decode to exactly its slice: each entry with its name,
      attributes and handle, consecutive cookies, and the eof flag. */
  lemma PageDecodes(q: Request, rest: bytes)
    requires PageOf(q).Entries?
    ensures var page := PageOf(q);
      DecPage(q.proc.ReadDirPlus?, ReplyBytes(q) + rest)
        == Some((Decoded(q.xid, q.dirAttr, Verifier(q.dirAttr),
                         Listed(WireItems(q.proc, page.entries, q.args.cookie), page.eof)), rest))
  {
    var page := PageOf(q);
    var items := EncItems(EncoderOf(q.proc), page.entries, q.args.cookie);
    var eof := EncBool(page.eof);
    Regroup4(Head(q), items, EncBool(false), eof, rest);
    HeadDecodes(q, items + (EncBool(false) + (eof + rest)));
    ItemsDecode(q.proc, page.entries, q.args.cookie, eof + rest);
    BoolRoundTrip(page.eof, rest);
  }

  /** The cookie on each entry of a page is the index just after it, so the last
      one is the index of the first entry not yet sent. */
  lemma LastCookieResumes(t: Terms, all: Directory, cookie: u64, i: nat)
    requires t.estimate >= 1 && CutPage(t, all, cookie).Entries?
    requires i < |CutPage(t, all, cookie).entries|
    ensures var entries := CutPage(t, all, cookie).entries;
      var at := WireItems(t.proc, entries, cookie)[i].entry.cookie;
      && at == cookie + i + 1 <= |all| && entries[i] == all[at - 1]
      && (i == |entries| - 1 ==> all[cookie..at] == entries)
  {
    PageIsSlice(t, all, cookie);
    assert WireItems(t.proc, CutPage(t, all, cookie).entries, cookie)[i]
        == WireItem(t.proc, CutPage(t, all, cookie).entries[i], SaturatingAdd(cookie, i + 1));
  }

  // ---- the client --------------------------------------------------------

  function At(q: Request, cookie: u64): Request {
    q.(args := q.args.(cookie := cookie))
  }

  /** Another request follows a page that is neither a refusal nor the last. */
  function More(page: Page, rest: seq<Page>): seq<Page> {
    if page.Entries? && !page.eof then [page] + rest else [page]
  }

  /** The pages a client sees that starts at `cookie` and goes on from the last
      cookie until eof or a refusal, the directory staying as it is. */
  function Pages(q: Request, all: Directory, cookie: u64): (pages: seq<Page>)
    requires Listable(q, all) && cookie <= |all|
    ensures pages != []
    decreases |all| - cookie
  {
    PageIsSlice(TermsOf(q), all, cookie);
    AtSame(q, all, cookie);
    var page := PageOf(At(q, cookie));
    More(page, if page.Entries? && !page.eof then Pages(q, all, cookie + |page.entries|) else [])
  }

  /** Only the cookie changes from request to request. */
  lemma AtSame(q: Request, all: Directory, cookie: u64)
    requires Listable(q, all)
    ensures PageOf(At(q, cookie)) == CutPage(TermsOf(q), all, cookie)
  {
  }

  function Collected(pages: seq<Page>): seq<DirEntry> {
    if pages == [] then []
    else (if pages[0].Entries? then pages[0].entries else []) + Collected(pages[1..])
  }

  /** The index of the first entry from `i` on that does not fit a page alone. */
  function FirstUnfit(t: Terms, all: Directory, i: nat): (j: nat)
    requires i <= |all|
    ensures i <= j <= |all|
    ensures forall k | i <= k < j :: FitsAlone(t, all[k])
    ensures j < |all| ==> !FitsAlone(t, all[j])
    decreases |all| - i
  {
    if i == |all| || !FitsAlone(t, all[i]) then i else FirstUnfit(t, all, i + 1)
  }

  /** Every entry from `cookie` up to `j`, in order and once each; then eof if `j`
      is the end of the listing, else TOOSMALL. Eof and refusals come only last,
      and every page but the last carries an entry. */
  ghost predicate Outcome(all: Directory, cookie: nat, j: nat, pages: seq<Page>)
    requires cookie <= j <= |all|
  {
    && pages != []
    && Collected(pages) == all[cookie..j]
    && var last := pages[|pages| - 1];
    && (if j == |all| then last.Entries? && last.eof else last == Refusal(TooSmall3))
    && (forall i | 0 <= i < |pages| - 1 :: pages[i].Entries? && !pages[i].eof && pages[i].entries != [])
    && |pages| <= Max(1, j - cookie + (if j == |all| then 0 else 1))
  }

  lemma OutcomeCons(all: Directory, cookie: nat, next: nat, j: nat, page: Page, rest: seq<Page>)
    requires cookie < next <= j <= |all| && Outcome(all, next, j, rest)
    requires next == j ==> j < |all|
    requires page.Entries? && !page.eof && page.entries == all[cookie..next]
    ensures Outcome(all, cookie, j, [page] + rest)
  {
    var pages := [page] + rest;
    assert pages[1..] == rest && pages[|pages| - 1] == rest[|rest| - 1];
    assert all[cookie..next] + all[next..j] == all[cookie..j];
    forall i | 0 <= i < |pages| - 1 ensures pages[i].Entries? && !pages[i].eof && pages[i].entries != [] {
      if i > 0 {
        assert pages[i] == rest[i - 1];
      }
    }
  }

  lemma OutcomeLast(all: Directory, cookie: nat, j: nat, page: Page)
    requires cookie <= j <= |all|
    requires if j == |all| then page.Entries? && page.eof && page.entries == all[cookie..]
             else j == cookie && page == Refusal(TooSmall3)
    ensures Outcome(all, cookie, j, [page])
  {
    assert [page][1..] == [] && Collected([]) == [];
  }

  lemma {:induction false} FitPrefix(t: Terms, all: Directory, i: nat, next: nat)
    requires i <= next <= |all| && forall e | e in all[i..next] :: FitsAlone(t, e)
    ensures FirstUnfit(t, all, i) == FirstUnfit(t, all, next)
    decreases next - i
  {
    if i < next {
      assert all[i] in all[i..next];
      assert forall e | e in all[i + 1..next] :: e in all[i..next];
      FitPrefix(t, all, i + 1, next);
    }
  }

  /** What the page at `cookie` says about the pages from there on. */
  ghost predicate PageStep(t: Terms, all: Directory, cookie: nat, page: Page, next: nat)
    requires cookie <= |all|
  {
    if page.Entries? then
      && cookie <= next <= |all| && page.entries == all[cookie..next]
      && (page.eof <==> next == |all|) && (!page.eof ==> cookie < next)
      && FirstUnfit(t, all, cookie) == FirstUnfit(t, all, next)
    else page == Refusal(TooSmall3) && FirstUnfit(t, all, cookie) == cookie < |all|
  }

  lemma NextPage(t: Terms, all: Directory, cookie: u64)
    requires t.estimate >= 1 && cookie <= |all|
    ensures var page := CutPage(t, all, cookie);
      PageStep(t, all, cookie, page, if page.Entries? then cookie + |page.entries| else cookie)
  {
    PageIsSlice(t, all, cookie);
    var page := CutPage(t, all, cookie);
    if page.Entries? {
      FitPrefix(t, all, cookie, cookie + |page.entries|);
    }
  }

  /** The same pages, from the terms that stay fixed over the client's run. */
  function PagesOn(t: Terms, all: Directory, cookie: u64): (pages: seq<Page>)
    requires t.estimate >= 1 && cookie <= |all|
    ensures pages != []
    decreases |all| - cookie
  {
    NextPage(t, all, cookie);
    var page := CutPage(t, all, cookie);
    More(page, if page.Entries? && !page.eof then PagesOn(t, all, cookie + |page.entries|) else [])
  }

  lemma {:induction false} PagesSame(q: Request, all: Directory, cookie: u64)
    requires Listable(q, all) && cookie <= |all|
    ensures Pages(q, all, cookie) == PagesOn(TermsOf(q), all, cookie)
    decreases |all| - cookie
  {
    AtSame(q, all, cookie);
    NextPage(TermsOf(q), all, cookie);
    var page := CutPage(TermsOf(q), all, cookie);
    if page.Entries? && !page.eof {
      PagesSame(q, all, cookie + |page.entries|);
    }
  }

  lemma StepOutcome(t: Terms, all: Directory, cookie: nat, page: Page, next: nat, rest: seq<Page>)
    requires cookie <= |all| && PageStep(t, all, cookie, page, next)
    requires page.Entries? && !page.eof ==> Outcome(all, next, FirstUnfit(t, all, next), rest)
    ensures Outcome(all, cookie, FirstUnfit(t, all, cookie), More(page, rest))
  {
    var j := FirstUnfit(t, all, cookie);
    if page.Entries? && !page.eof {
      OutcomeCons(all, cookie, next, j, page, rest);
    } else {
      OutcomeLast(all, cookie, j, page);
    }
  }

  /** The first page of a run and the pages that follow it. */
  lemma FirstPage(t: Terms, all: Directory, cookie: u64) returns (page: Page, next: nat, rest: seq<Page>)
    requires t.estimate >= 1 && cookie <= |all|
    ensures PageStep(t, all, cookie, page, next) && PagesOn(t, all, cookie) == More(page, rest)
    ensures page.Entries? && !page.eof ==> cookie < next <= |all| && rest == PagesOn(t, all, next)
  {
    NextPage(t, all, cookie);
    page := CutPage(t, all, cookie);
    next := if page.Entries? then cookie + |page.entries| else cookie;
    rest := if page.Entries? && !page.eof then PagesOn(t, all, next) else [];
  }

  lemma PageWithin(t: Terms, all: Directory, cookie: u64)
    requires t.estimate >= 1 && cookie <= |all|
    ensures var page := CutPage(t, all, cookie); page.Entries? ==> cookie + |page.entries| <= |all|
  {
    NextPage(t, all, cookie);
  }

  /** Pages that start and go on as a run does are that run. */
  lemma PagesOnStep(t: Terms, all: Directory, cookie: u64, pages: seq<Page>)
    requires t.estimate >= 1 && cookie <= |all| && pages != [] && pages[0] == CutPage(t, all, cookie)
    requires if pages[0].Entries? && !pages[0].eof
             then cookie + |pages[0].entries| <= |all|
               && pages[1..] == PagesOn(t, all, cookie + |pages[0].entries|)
             else |pages| == 1
    ensures pages == PagesOn(t, all, cookie)
  {
    assert pages == [pages[0]] + pages[1..];
  }

  /** What any client gets, for any directory and budgets: exactly the entries
      before the first that fits no page of its own. */
  lemma {:induction false} ClientGets(t: Terms, all: Directory, cookie: u64)
    requires t.estimate >= 1 && cookie <= |all|
    ensures Outcome(all, cookie, FirstUnfit(t, all, cookie), PagesOn(t, all, cookie))
    decreases |all| - cookie
  {
    var page, next, rest := FirstPage(t, all, cookie);
    if page.Entries? && !page.eof {
      ClientGets(t, all, next);
    }
    StepOutcome(t, all, cookie, page, next, rest);
  }

  /** The pages from cookie 0 are the whole listing, in at most one page per entry and
      with eof exactly on the last page, if and only if every entry fits alone. */
  lemma CompleteOnIff(t: Terms, all: Directory)
    requires t.estimate >= 1
    ensures var pages := PagesOn(t, all, 0); var last := pages[|pages| - 1];
      && (forall i | 0 <= i < |pages| - 1 :: pages[i].Entries? && !pages[i].eof)
      && ((forall e | e in all :: FitsAlone(t, e)) <==> Collected(pages) == all && last.Entries? && last.eof)
      && ((forall e | e in all :: FitsAlone(t, e)) ==> |pages| <= Max(1, |all|))
  {
    ClientGets(t, all, 0);
    var j := FirstUnfit(t, all, 0);
    assert all[0..j] == all[..j];
    if j == |all| {
      assert all[..j] == all;
      forall e | e in all ensures FitsAlone(t, e) {
        var k :| 0 <= k < |all| && all[k] == e;
      }
    } else {
      assert all[j] in all;
    }
  }

  /** A client starting at cookie 0 gets the whole listing, in at most one page
      per entry and with eof exactly on the last page, if and only if every
      entry fits a page of its own. */
  lemma ClientCompleteIff(q: Request, all: Directory)
    requires Listable(q, all)
    ensures var pages := Pages(q, all, 0); var last := pages[|pages| - 1];
      (forall e | e in all :: FitsAlone(TermsOf(q), e)) <==>
        && Collected(pages) == all && last.Entries? && last.eof
        && (forall i | 0 <= i < |pages| - 1 :: pages[i].Entries? && !pages[i].eof)
        && |pages| <= Max(1, |all|)
  {
    PagesSame(q, all, 0);
    CompleteOnIff(TermsOf(q), all);
  }
}
