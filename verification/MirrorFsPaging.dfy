/** READDIR page by page over the mirror file system: every page lists the directory
    afresh, and a directory that does not change is delivered as one listing. */
module MirrorFsPaging {
  import opened Wrappers
  import opened FsMapState
  import opened FsMapInvariant
  import MirrorFsCalls
  import opened MirrorFsRelist
  import opened DirPage
  import opened DirListing

  /** A client paging through a directory, and what the disk answers to each of its
      requests; `spell` writes a listing out, with names as bytes. */
  datatype Client = Client(
    terms: Terms, dir: FileId, probe: Probe, scan: Scan, depth: nat,
    spell: seq<MirrorFsCalls.DirEntry> -> Directory)
  {
    ghost function Listed(m: State): MirrorFsCalls.Outcome<seq<MirrorFsCalls.DirEntry>> {
      MirrorFsCalls.ReadDir(m, dir, probe, scan, depth)
    }
  }

  /** The pages the client sees from `cookie` on: each is cut from the listing made for
      it, and the next request goes on from the last cookie until eof or a refusal. */
  ghost predicate Session(c: Client, m: State, cookie: nat, pages: seq<Page>)
    decreases |pages|
  {
    && pages != [] && cookie < 0x1_0000_0000_0000_0000 && c.Listed(m).Some? && c.Listed(m).value.1.Ok?
    && pages[0] == CutPage(c.terms, c.spell(c.Listed(m).value.1.value), cookie)
    && if pages[0].Entries? && !pages[0].eof
       then Session(c, c.Listed(m).value.0, cookie + |pages[0].entries|, pages[1..])
       else |pages| == 1
  }

  lemma SessionStep(
    c: Client, m: State, n: State, listing: seq<MirrorFsCalls.DirEntry>, cookie: nat, pages: seq<Page>)
    requires Session(c, m, cookie, pages) && c.Listed(m) == Some((n, Ok(listing)))
    ensures pages != [] && cookie < 0x1_0000_0000_0000_0000
    ensures pages[0] == CutPage(c.terms, c.spell(listing), cookie)
    ensures if pages[0].Entries? && !pages[0].eof
            then Session(c, n, cookie + |pages[0].entries|, pages[1..]) else |pages| == 1
  {
  }

  /** Pages cut one after another from one listing. */
  ghost predicate Cuts(t: Terms, all: Directory, cookie: nat, pages: seq<Page>)
    decreases |pages|
  {
    && pages != [] && cookie < 0x1_0000_0000_0000_0000 && pages[0] == CutPage(t, all, cookie)
    && if pages[0].Entries? && !pages[0].eof
       then Cuts(t, all, cookie + |pages[0].entries|, pages[1..])
       else |pages| == 1
  }

  lemma {:induction false} CutsArePages(t: Terms, all: Directory, cookie: nat, pages: seq<Page>)
    requires t.estimate >= 1 && cookie <= |all| && Cuts(t, all, cookie, pages)
    ensures pages == PagesOn(t, all, cookie)
    decreases |pages|
  {
    PageWithin(t, all, cookie);
    if pages[0].Entries? && !pages[0].eof {
      CutsArePages(t, all, cookie + |pages[0].entries|, pages[1..]);
    }
    PagesOnStep(t, all, cookie, pages);
  }

  /** Once the cache has settled, the pages are cut from its one listing. */
  lemma {:induction false} SettledCuts(
    c: Client, m: State, listing: seq<MirrorFsCalls.DirEntry>, cookie: nat, pages: seq<Page>)
    requires Settled(m, c.dir, c.probe, c.scan) && MirrorFsCalls.Listing(m, c.dir) == Ok(listing)
    requires Session(c, m, cookie, pages)
    ensures Cuts(c.terms, c.spell(listing), cookie, pages)
    decreases |pages|
  {
    SettledReadDir(m, c.dir, c.probe, c.scan, c.depth);
    SessionStep(c, m, m, listing, cookie, pages);
    if pages[0].Entries? && !pages[0].eof {
      SettledCuts(c, m, listing, cookie + |pages[0].entries|, pages[1..]);
    }
  }

  lemma SessionPages(c: Client, m: State, pages: seq<Page>)
    requires Inv(m) && Unchanging(m, c.dir, c.probe, c.scan, c.depth)
    requires c.terms.estimate >= 1 && Session(c, m, 0, pages)
    ensures pages == PagesOn(c.terms, c.spell(c.Listed(m).value.1.value), 0)
  {
    var (n, r) := c.Listed(m).value;
    var all := c.spell(r.value);
    ReadDirAgain(m, c.dir, c.probe, c.scan, c.depth, c.depth);
    SessionStep(c, m, n, r.value, 0, pages);
    if pages[0].Entries? && !pages[0].eof {
      SettledCuts(c, n, r.value, |pages[0].entries|, pages[1..]);
    }
    assert Cuts(c.terms, all, 0, pages);
    CutsArePages(c.terms, all, 0, pages);
  }

  /** Although every page lists the directory afresh, a client that pages through one
      that does not change gets its whole listing, each entry once and in order, with
      eof on the last page, if and only if every entry fits a page of its own. */
  lemma PagedListingIff(c: Client, m: State, pages: seq<Page>)
    requires Inv(m) && Unchanging(m, c.dir, c.probe, c.scan, c.depth)
    requires c.terms.estimate >= 1 && Session(c, m, 0, pages)
    ensures var all := c.spell(c.Listed(m).value.1.value); var last := pages[|pages| - 1];
      (forall e | e in all :: FitsAlone(c.terms, e)) <==> Collected(pages) == all && last.Entries? && last.eof
  {
    var all := c.spell(c.Listed(m).value.1.value);
    SessionPages(c, m, pages);
    CompleteOnIff(c.terms, all);
  }
}
