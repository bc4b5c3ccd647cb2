/** Listing a directory again that has not changed changes nothing in the cache and
    gives the same listing. */
module MirrorFsRelist {
  import opened Wrappers
  import opened Ordered
  import opened FsMapState
  import opened FsMapInvariant
  import opened FsMapTree
  import opened FsMapRefresh
  import opened MirrorFsCalls

  // ---- entries the scan does not meet ------------------------------------

  ghost predicate Untouched(m: State, n: State, x: FileId) {
    && x in m.idToPath && x in n.idToPath
    && n.idToPath[x].fsmeta == m.idToPath[x].fsmeta && n.idToPath[x].aliases <= m.idToPath[x].aliases
  }

  lemma AttachOther(m: State, path: Path, meta: Meta, x: FileId)
    requires InodesInverse(m) && Issued(m) && x in m.idToPath && x in m.idToInode && m.idToInode[x] != meta.inode
    ensures Untouched(m, Attach(m, path, meta).0, x)
  {
  }

  lemma LiveDetached(m: State, path: Path, meta: Meta, x: FileId)
    requires Inv(m) && x in m.idToPath && m.idToInode[x] != meta.inode
    requires path !in Detach(m, path, meta.inode).pathToId && x in CreateEntry(m, path, meta).0.idToPath
    ensures var d := Detach(m, path, meta.inode);
      Inv(d) && x in d.idToPath && d.idToInode[x] == m.idToInode[x]
  {
    RemovePathKeeps(m, path);
  }

  /** An entry of another inode keeps its attributes and gets no alias. */
  lemma CreateOther(m: State, path: Path, meta: Meta, x: FileId)
    requires Inv(m) && x in m.idToPath && m.idToInode[x] != meta.inode
    requires x in CreateEntry(m, path, meta).0.idToPath
    ensures Untouched(m, CreateEntry(m, path, meta).0, x)
  {
    var d := Detach(m, path, meta.inode);
    RemovePathPrunes(m, path);
    if path in d.pathToId {
      DetachKeepsMatch(m, path, meta.inode);
    } else {
      LiveDetached(m, path, meta, x);
      AttachOther(d, path, meta, x);
    }
  }

  ghost predicate Meets(items: seq<Listed>, inode: InodeKey) {
    exists i :: 0 <= i < |items| && items[i].meta.Some? && items[i].meta.value.inode == inode
  }

  lemma MeetsFirst(items: seq<Listed>, inode: InodeKey)
    requires items != [] && items[0].meta.Some?
    ensures Meets(items, inode) <==> items[0].meta.value.inode == inode || Meets(items[1..], inode)
  {
    if i :| 0 < i < |items| && items[i].meta.Some? && items[i].meta.value.inode == inode {
      assert items[1..][i - 1] == items[i];
    }
    if i :| 0 <= i < |items[1..]| && items[1..][i].meta.Some? && items[1..][i].meta.value.inode == inode {
      assert items[i + 1] == items[1..][i];
    }
  }

  /** An id that is live after a step was live before it, if it had been issued. */
  lemma LiveBefore(m: State, n: State, x: FileId)
    requires Inv(m) && Inv(n) && Stable(m, n) && x in n.idToPath && x < m.nextFileid
    ensures x in m.idToPath && m.idToInode[x] == n.idToInode[x]
  {
  }

  lemma {:induction false} ScanOther(
    m: State, id: FileId, dir: Path, items: seq<Listed>, found: map<Symbol, FileId>, x: FileId)
    requires Inv(m) && id in m.idToPath && m.idToPath[id].name == dir
    requires x in m.idToPath && !Meets(items, m.idToInode[x])
    requires x in ScanItems(m, dir, items, found).0.idToPath
    ensures Untouched(m, ScanItems(m, dir, items, found).0, x)
    decreases items
  {
    if items != [] && items[0].meta.Some? {
      var path, meta := dir + [items[0].name], items[0].meta.value;
      var (m1, child) := CreateEntry(m, path, meta);
      var found1 := found[items[0].name := child];
      CreateEntryKeeps(m, path, meta);
      CreateOtherStays(m, path, meta, id);
      ScanKeeps(m1, id, dir, items[1..], found1);
      LiveBefore(m1, ScanItems(m1, dir, items[1..], found1).0, x);
      MeetsFirst(items, m.idToInode[x]);
      CreateOther(m, path, meta, x);
      ScanOther(m1, id, dir, items[1..], found1, x);
    }
  }

  // ---- what a scan leaves known ------------------------------------------

  ghost predicate Distinct(items: seq<Listed>) {
    forall i, j | 0 <= i < j < |items| :: items[i].name != items[j].name
  }

  /** The item's path is cached under a live id that stands for its inode. */
  ghost predicate Known(m: State, dir: Path, item: Listed) {
    && item.meta.Some? && dir + [item.name] in m.pathToId
    && var id := m.pathToId[dir + [item.name]];
    && id in m.idToPath && id in m.idToInode && m.idToInode[id] == item.meta.value.inode
  }

  /** The id has the attributes the last item of its inode reports. */
  ghost predicate Current(m: State, dir: Path, items: seq<Listed>, i: nat)
    requires i < |items| && Known(m, dir, items[i])
  {
    var id := m.pathToId[dir + [items[i].name]];
    !Meets(items[i + 1..], m.idToInode[id]) ==> m.idToPath[id].fsmeta == ToAttr(id, items[i].meta.value)
  }

  ghost predicate AllKnown(m: State, dir: Path, items: seq<Listed>) {
    && (forall i | 0 <= i < |items| :: Known(m, dir, items[i]))
    && (forall i | 0 <= i < |items| :: Current(m, dir, items, i))
  }

  lemma AllKnownTail(m: State, dir: Path, items: seq<Listed>)
    requires AllKnown(m, dir, items) && items != []
    ensures AllKnown(m, dir, items[1..])
  {
    var rest := items[1..];
    forall i | 0 <= i < |rest| ensures Known(m, dir, rest[i]) && Current(m, dir, rest, i) {
      assert rest[i] == items[i + 1] && rest[i + 1..] == items[i + 2..];
      assert Current(m, dir, items, i + 1);
    }
  }

  // ---- scanning known items ----------------------------------------------

  /** `n` is `m` but for attributes that the items are about to set. */
  ghost predicate SameBut(n: State, m: State, items: seq<Listed>) {
    && n == m.(idToPath := n.idToPath) && n.idToPath.Keys == m.idToPath.Keys
    && forall x | x in m.idToPath ::
      && n.idToPath[x] == m.idToPath[x].(fsmeta := n.idToPath[x].fsmeta)
      && ((x in m.idToInode && Meets(items, m.idToInode[x])) || n.idToPath[x] == m.idToPath[x])
  }

  lemma KnownCreate(n: State, m: State, dir: Path, items: seq<Listed>)
    requires Inv(m) && items != [] && AllKnown(m, dir, items) && SameBut(n, m, items)
    ensures var (n1, id) := CreateEntry(n, dir + [items[0].name], items[0].meta.value);
      id == m.pathToId[dir + [items[0].name]] && SameBut(n1, m, items[1..])
  {
    assert Known(m, dir, items[0]) && Current(m, dir, items, 0);
    var path, meta := dir + [items[0].name], items[0].meta.value;
    var id := m.pathToId[path];
    assert CreateEntry(n, path, meta) == (SetMeta(n, id, ToAttr(id, meta)), id);
    var n1 := SetMeta(n, id, ToAttr(id, meta));
    forall x | x in m.idToPath
      ensures n1.idToPath[x] == m.idToPath[x].(fsmeta := n1.idToPath[x].fsmeta)
      ensures (x in m.idToInode && Meets(items[1..], m.idToInode[x])) || n1.idToPath[x] == m.idToPath[x]
    {
      MeetsFirst(items, m.idToInode[x]);
    }
  }

  lemma {:induction false} KnownScan(n: State, m: State, dir: Path, items: seq<Listed>, found: map<Symbol, FileId>)
    requires Inv(m) && AllKnown(m, dir, items) && SameBut(n, m, items)
    ensures ScanItems(n, dir, items, found).0 == m && ScanItems(n, dir, items, found).1.Ok?
    decreases items
  {
    if items == [] {
      assert n.idToPath == m.idToPath;
    } else {
      assert Known(m, dir, items[0]);
      KnownCreate(n, m, dir, items);
      AllKnownTail(m, dir, items);
      var (n1, id) := CreateEntry(n, dir + [items[0].name], items[0].meta.value);
      KnownScan(n1, m, dir, items[1..], found[items[0].name := id]);
    }
  }

  // ---- a relisting makes its items known ---------------------------------

  lemma {:induction false} ScanSets(
    m: State, id: FileId, dir: Path, items: seq<Listed>, found: map<Symbol, FileId>, i: nat)
    requires Inv(m) && id in m.idToPath && m.idToPath[id].name == dir
    requires ScanItems(m, dir, items, found).1.Ok? && i < |items| && items[i].meta.Some?
    requires forall j | i < j < |items| :: items[j].name != items[i].name
    requires !Meets(items[i + 1..], items[i].meta.value.inode)
    ensures var n := ScanItems(m, dir, items, found).0; var path := dir + [items[i].name];
      && path in n.pathToId && n.pathToId[path] in n.idToPath
      && n.idToPath[n.pathToId[path]].fsmeta == ToAttr(n.pathToId[path], items[i].meta.value)
    decreases items
  {
    var path, meta := dir + [items[0].name], items[0].meta.value;
    var (m1, child) := CreateEntry(m, path, meta);
    var found1 := found[items[0].name := child];
    CreateEntryKeeps(m, path, meta);
    CreateOtherStays(m, path, meta, id);
    if i > 0 {
      assert items[1..][i - 1 + 1..] == items[i + 1..];
      ScanSets(m1, id, dir, items[1..], found1, i - 1);
    } else {
      CreateEntryMaps(m, path, meta);
      CreateEntryBinds(m, path, meta);
      forall j | 0 <= j < |items[1..]| ensures path != dir + [items[1..][j].name] {
        assert items[1..][j] == items[j + 1];
        assert path[|dir|] == items[0].name && (dir + [items[j + 1].name])[|dir|] == items[j + 1].name;
      }
      ScanElsewhere(m1, dir, items[1..], found1, path);
      ScanKeeps(m1, id, dir, items[1..], found1);
      var n := ScanItems(m1, dir, items[1..], found1).0;
      assert Lists(n, child, path);
      ScanOther(m1, id, dir, items[1..], found1, child);
    }
  }

  lemma ScanKnows(m: State, id: FileId, dir: Path, items: seq<Listed>, found: map<Symbol, FileId>)
    requires Inv(m) && id in m.idToPath && m.idToPath[id].name == dir && Distinct(items)
    requires ScanItems(m, dir, items, found).1.Ok?
    ensures AllKnown(ScanItems(m, dir, items, found).0, dir, items)
  {
    var n := ScanItems(m, dir, items, found).0;
    ScanKeeps(m, id, dir, items, found);
    forall i | 0 <= i < |items| ensures Known(n, dir, items[i]) && Current(n, dir, items, i) {
      ScanBinds(m, id, dir, items, found, i);
      assert Lists(n, n.pathToId[dir + [items[i].name]], dir + [items[i].name]);
      if !Meets(items[i + 1..], items[i].meta.value.inode) {
        ScanSets(m, id, dir, items, found, i);
      }
    }
  }

  lemma RemoveKnown(m: State, dir: Path, items: seq<Listed>, s: Symbol)
    requires Inv(m) && AllKnown(m, dir, items) && forall i | 0 <= i < |items| :: items[i].name != s
    ensures AllKnown(RemovePath(m, dir + [s]), dir, items)
  {
    var path := dir + [s];
    var n := RemovePath(m, path);
    RemovePathPrunes(m, path);
    forall i | 0 <= i < |items| ensures Known(n, dir, items[i]) && Current(n, dir, items, i) {
      assert Known(m, dir, items[i]) && Current(m, dir, items, i);
      var p := dir + [items[i].name];
      assert path[|dir|] == s && p[|dir|] == items[i].name;
      assert p in n.pathToId && Lists(n, n.pathToId[p], p);
      LiveBefore(m, n, n.pathToId[p]);
    }
  }

  lemma {:induction false} DropKnown(
    m: State, dir: Path, names: seq<Symbol>, found: map<Symbol, FileId>, items: seq<Listed>)
    requires Inv(m) && AllKnown(m, dir, items) && forall i | 0 <= i < |items| :: items[i].name in found
    ensures AllKnown(DropAbsent(m, dir, names, found), dir, items)
    decreases names
  {
    if names != [] {
      if names[0] !in found {
        RemovePathKeeps(m, dir + [names[0]]);
        RemoveKnown(m, dir, items, names[0]);
      }
      DropKnown(if names[0] in found then m else RemovePath(m, dir + [names[0]]), dir, names[1..], found, items);
    }
  }

  lemma RecordKnown(m: State, id: FileId, dir: Path, found: map<Symbol, FileId>, items: seq<Listed>)
    requires AllKnown(m, dir, items)
    ensures AllKnown(RecordChildren(m, id, found), dir, items)
  {
    var n := RecordChildren(m, id, found);
    forall i | 0 <= i < |items| ensures Known(n, dir, items[i]) && Current(n, dir, items, i) {
      assert Known(m, dir, items[i]) && Current(m, dir, items, i);
    }
  }

  lemma RelistKnows(m: State, id: FileId, scan: Scan)
    requires Inv(m) && Relisted(m, id, scan) && Distinct(scan.items)
    ensures AllKnown(RefreshDirList(m, id, scan).0, m.idToPath[id].name, scan.items)
  {
    var e := m.idToPath[id];
    var (scanned, r) := ScanItems(m, e.name, scan.items, map[]);
    var names := Ascending(KnownChildren(e));
    ScanKeeps(m, id, e.name, scan.items, map[]);
    ScanKnows(m, id, e.name, scan.items, map[]);
    ScanMaps(m, e.name, scan.items, map[]);
    forall i | 0 <= i < |scan.items| ensures scan.items[i].name in r.value {
      assert Named(scan.items, scan.items[i].name);
    }
    DropKnown(scanned, e.name, names, r.value, scan.items);
    RecordKnown(DropAbsent(scanned, e.name, names, r.value), id, e.name, r.value, scan.items);
  }

  // ---- listing again -----------------------------------------------------

  /** What a successful relisting leaves in the directory's entry. */
  lemma RelistRecords(m: State, id: FileId, scan: Scan)
    requires Inv(m) && Relisted(m, id, scan)
    ensures var n := RefreshDirList(m, id, scan).0;
      && id in n.idToPath && n.idToPath[id].name == m.idToPath[id].name
      && n.idToPath[id].children.Some? && n.idToPath[id].childrenMeta == n.idToPath[id].fsmeta
      && var children := n.idToPath[id].children.value;
      && (forall s :: s in children <==> Named(scan.items, s))
      && (forall s | s in children ::
        n.idToPath[id].name + [s] in n.pathToId && children[s] == n.pathToId[n.idToPath[id].name + [s]])
  {
    RelistAgrees(m, id, scan);
    var e := m.idToPath[id];
    var (scanned, r) := ScanItems(m, e.name, scan.items, map[]);
    var dropped := DropAbsent(scanned, e.name, Ascending(KnownChildren(e)), r.value);
    ScanKeeps(m, id, e.name, scan.items, map[]);
    DropKeeps(scanned, id, e.name, Ascending(KnownChildren(e)), r.value);
    assert RefreshDirList(m, id, scan).0 == RecordChildren(dropped, id, r.value);
    var n := RefreshDirList(m, id, scan).0;
    forall s | s in n.idToPath[id].children.value
      ensures n.idToPath[id].name + [s] in n.pathToId
      ensures n.idToPath[id].children.value[s] == n.pathToId[n.idToPath[id].name + [s]]
    {
      assert FindChild(n, id, s) == Ok(n.idToPath[id].children.value[s]);
    }
  }

  /** Relisting a directory whose items are all known, and recorded, changes nothing. */
  lemma KnownRelist(m: State, id: FileId, scan: Scan)
    requires Inv(m) && id in m.idToPath && m.idToPath[id].IsDirectory() && scan.Opened? && scan.fault.None?
    requires AllKnown(m, m.idToPath[id].name, scan.items)
    requires var e := m.idToPath[id];
      && e.children.Some? && e.childrenMeta == e.fsmeta
      && (forall s :: s in e.children.value <==> Named(scan.items, s))
      && (forall s | s in e.children.value ::
        e.name + [s] in m.pathToId && e.children.value[s] == m.pathToId[e.name + [s]])
    ensures RefreshDirList(m, id, scan) == (m, Ok(()))
  {
    var e := m.idToPath[id];
    KnownScan(m, m, e.name, scan.items, map[]);
    ScanMaps(m, e.name, scan.items, map[]);
    var found := ScanItems(m, e.name, scan.items, map[]).1.value;
    assert found == e.children.value;
    DropsNone(m, e.name, Ascending(KnownChildren(e)), found);
    assert e.(children := Some(found), childrenMeta := e.fsmeta) == e;
    assert m.idToPath[id := e] == m.idToPath;
  }

  /** So does relisting a second time from the same scan. */
  lemma RelistAgain(m: State, id: FileId, scan: Scan)
    requires Inv(m) && Relisted(m, id, scan) && Distinct(scan.items)
    ensures var n := RefreshDirList(m, id, scan).0; RefreshDirList(n, id, scan) == (n, Ok(()))
  {
    var n := RefreshDirList(m, id, scan).0;
    RelistKeeps(m, id, scan);
    RelistRecords(m, id, scan);
    RelistKnows(m, id, scan);
    if n.idToPath[id].IsDirectory() {
      KnownRelist(n, id, scan);
    }
  }

  lemma {:induction false} DropUntouched(
    m: State, dir: Path, names: seq<Symbol>, found: map<Symbol, FileId>, x: FileId)
    requires Inv(m) && x in DropAbsent(m, dir, names, found).idToPath
    ensures Untouched(m, DropAbsent(m, dir, names, found), x)
    decreases names
  {
    if names != [] {
      RemovePathPrunes(m, dir + [names[0]]);
      DropUntouched(
        if names[0] in found then m else RemovePath(m, dir + [names[0]]), dir, names[1..], found, x);
    }
  }

  /** A directory that does not list its own inode is not touched by its relisting. */
  lemma RelistUntouched(m: State, id: FileId, scan: Scan)
    requires Inv(m) && Relisted(m, id, scan) && !Meets(scan.items, m.idToInode[id])
    ensures Untouched(m, RefreshDirList(m, id, scan).0, id)
  {
    var e := m.idToPath[id];
    var (scanned, r) := ScanItems(m, e.name, scan.items, map[]);
    var names := Ascending(KnownChildren(e));
    ScanKeeps(m, id, e.name, scan.items, map[]);
    ScanOther(m, id, e.name, scan.items, map[], id);
    DropKeeps(scanned, id, e.name, names, r.value);
    DropUntouched(scanned, e.name, names, r.value, id);
  }

  /** What the disk says about the entry is what the cache has. */
  ghost predicate Fresh(m: State, id: FileId, probe: Probe) {
    && id in m.idToPath && m.idToPath[id].aliases <= probe.present
    && IsLeast(m.idToPath[id].name, m.idToPath[id].aliases)
    && probe.meta.Some? && id in m.idToInode && m.idToInode[id] == probe.meta.value.inode
    && !Differ(m.idToPath[id].fsmeta, ToAttr(id, probe.meta.value))
  }

  /** A refresh of such an entry changes nothing. */
  lemma FreshRefresh(m: State, id: FileId, probe: Probe, depth: nat)
    requires Inv(m) && Fresh(m, id, probe)
    ensures RefreshEntry(m, id, probe, depth) == Some((m, Ok(Noop)))
  {
    var e := m.idToPath[id];
    assert e.aliases * probe.present == e.aliases && e.aliases - probe.present == {};
    LeastUnique(e.name, Least(e.aliases), e.aliases);
    assert m.pathToId - {} == m.pathToId && m.idToPath[id := e] == m.idToPath;
    assert KeepPresent(m, id, probe.present) == m;
    RekeyNoop(m, id, probe.meta.value.inode);
  }

  lemma KeptAliases(m: State, id: FileId, present: set<Path>)
    requires id in m.idToPath && m.idToPath[id].aliases * present != {}
    ensures KeepPresent(m, id, present).idToPath[id].aliases == m.idToPath[id].aliases * present
  {
  }

  /** A refresh that does not delete the entry makes it so. */
  lemma RefreshMakesFresh(m: State, id: FileId, probe: Probe, depth: nat)
    requires Inv(m) && RefreshEntry(m, id, probe, depth).Some?
    requires RefreshEntry(m, id, probe, depth).value.1.Ok? && RefreshEntry(m, id, probe, depth).value.1 != Ok(Delete)
    ensures Fresh(RefreshEntry(m, id, probe, depth).value.0, id, probe)
  {
    RefreshConfirms(m, id, probe, depth);
    KeptAliases(m, id, probe.present);
  }

  /** And the relisting of a directory that does not list itself leaves it so. */
  lemma RelistKeepsFresh(m: State, id: FileId, probe: Probe, scan: Scan)
    requires Inv(m) && Fresh(m, id, probe) && Relisted(m, id, scan) && !Meets(scan.items, probe.meta.value.inode)
    ensures Fresh(RefreshDirList(m, id, scan).0, id, probe)
  {
    var n := RefreshDirList(m, id, scan).0;
    RelistKeeps(m, id, scan);
    RelistUntouched(m, id, scan);
    RelistAgrees(m, id, scan);
    assert Lists(n, id, n.idToPath[id].name);
    LiveBefore(m, n, id);
  }

  /** The disk has the directory as the cache knows it, and its scan is that of a
      directory: no name twice, and not the directory itself. */
  ghost predicate Unchanging(m: State, dir: FileId, probe: Probe, scan: Scan, depth: nat) {
    && var o := RefreshEntry(m, dir, probe, depth);
    && o.Some? && o.value.1.Ok? && o.value.1 != Ok(Delete)
    && probe.meta.Some? && scan.Opened? && Distinct(scan.items) && !Meets(scan.items, probe.meta.value.inode)
  }

  lemma ReadDirStages(m: State, dir: FileId, probe: Probe, scan: Scan, depth: nat)
    requires Unchanging(m, dir, probe, scan, depth) && ReadDir(m, dir, probe, scan, depth).value.1.Ok?
    ensures var m1 := RefreshEntry(m, dir, probe, depth).value.0; var n := RefreshDirList(m1, dir, scan).0;
      Relisted(m1, dir, scan) && ReadDir(m, dir, probe, scan, depth).value == (n, Listing(n, dir))
  {
  }

  /** Nothing about the directory is left to be found out from these answers. */
  ghost predicate Settled(m: State, dir: FileId, probe: Probe, scan: Scan) {
    && Inv(m) && RefreshDirList(m, dir, scan) == (m, Ok(()))
    && forall depth :: RefreshEntry(m, dir, probe, depth) == Some((m, Ok(Noop)))
  }

  lemma RelistSettles(m: State, dir: FileId, probe: Probe, scan: Scan)
    requires Inv(m) && Fresh(m, dir, probe) && Relisted(m, dir, scan)
    requires Distinct(scan.items) && !Meets(scan.items, probe.meta.value.inode)
    ensures Settled(RefreshDirList(m, dir, scan).0, dir, probe, scan)
  {
    var n := RefreshDirList(m, dir, scan).0;
    RelistKeeps(m, dir, scan);
    RelistAgain(m, dir, scan);
    RelistKeepsFresh(m, dir, probe, scan);
    forall depth ensures RefreshEntry(n, dir, probe, depth) == Some((n, Ok(Noop))) {
      FreshRefresh(n, dir, probe, depth);
    }
  }

  /** READDIR of a directory that is as it was: after the first call the cache stays,
      and every further call gives the same listing. */
  lemma ReadDirAgain(m: State, dir: FileId, probe: Probe, scan: Scan, depth: nat, again: nat)
    requires Inv(m) && Unchanging(m, dir, probe, scan, depth) && ReadDir(m, dir, probe, scan, depth).value.1.Ok?
    ensures var (n, r) := ReadDir(m, dir, probe, scan, depth).value;
      && Settled(n, dir, probe, scan) && r == Listing(n, dir)
      && ReadDir(n, dir, probe, scan, again) == Some((n, r))
  {
    ReadDirStages(m, dir, probe, scan, depth);
    RefreshKeeps(m, dir, probe, depth);
    RefreshMakesFresh(m, dir, probe, depth);
    RelistSettles(RefreshEntry(m, dir, probe, depth).value.0, dir, probe, scan);
    SettledReadDir(ReadDir(m, dir, probe, scan, depth).value.0, dir, probe, scan, again);
  }

  lemma SettledReadDir(m: State, dir: FileId, probe: Probe, scan: Scan, depth: nat)
    requires Settled(m, dir, probe, scan)
    ensures ReadDir(m, dir, probe, scan, depth) == Some((m, Listing(m, dir)))
  {
    assert RefreshEntry(m, dir, probe, depth) == Some((m, Ok(Noop)));
  }
}
