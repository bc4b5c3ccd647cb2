/** What refresh_entry and refresh_dir_list answer, and when: each answer under the
    disk's answers alone. */
module FsMapAnswers {
  import opened Wrappers
  import opened Ordered
  import opened FsMapState
  import opened FsMapInvariant
  import opened FsMapTree
  import opened FsMapRefresh

  // ---- refresh_entry -----------------------------------------------------

  ghost function Present(m: State, id: FileId, probe: Probe): set<Path>
    requires id in m.idToPath
  {
    m.idToPath[id].aliases * probe.present
  }

  /** Some alias exists, but the first that does has no metadata to be read. */
  ghost predicate NoMetadata(m: State, id: FileId, probe: Probe)
    requires id in m.idToPath
  {
    Present(m, id, probe) != {} && probe.meta.None?
  }

  /** The disk has the entry: an alias, under the inode and of the type that are cached. */
  ghost predicate Confirmed(m: State, id: FileId, probe: Probe)
    requires id in m.idToPath && id in m.idToInode
  {
    && Present(m, id, probe) != {} && probe.meta.Some?
    && probe.meta.value.inode == m.idToInode[id] && probe.meta.value.ftype == m.idToPath[id].fsmeta.ftype
  }

  /** The attributes that make a cached file stale. */
  ghost predicate SameStamp(a: Attr, id: FileId, meta: Meta) {
    a.fileid == id && a.size == meta.size && a.nlink == meta.nlink && a.mtime == meta.mtime && a.ctime == meta.ctime
  }

  /** A refresh answers Delete if and only if no alias is left, or what is there has
      another inode or type; IO if and only if an alias is there without metadata;
      Noop or Reload otherwise, by whether the attributes are those cached. */
  lemma RefreshAnswers(m: State, id: FileId, probe: Probe, depth: nat)
    requires Inv(m) && id in m.idToPath && RefreshEntry(m, id, probe, depth).Some?
    ensures var r := RefreshEntry(m, id, probe, depth).value.1;
      && (r == Ok(Delete) <==>
        || Present(m, id, probe) == {}
        || (probe.meta.Some? &&
            (probe.meta.value.inode != m.idToInode[id] || probe.meta.value.ftype != m.idToPath[id].fsmeta.ftype)))
      && (r == Error(IO) <==> Present(m, id, probe) != {} && probe.meta.None?)
      && (r == Ok(Noop) <==> Confirmed(m, id, probe) && SameStamp(m.idToPath[id].fsmeta, id, probe.meta.value))
      && (r == Ok(Reload) <==> Confirmed(m, id, probe) && !SameStamp(m.idToPath[id].fsmeta, id, probe.meta.value))
  {
  }

  lemma RefreshUnknown(m: State, id: FileId, probe: Probe, depth: nat)
    requires id !in m.idToPath
    ensures RefreshEntry(m, id, probe, depth) == Some((m, Error(NoEnt)))
  {
  }

  /** Every other entry is as it was, and so are the inodes. */
  ghost predicate OthersStay(m: State, n: State, id: FileId) {
    && n.idToPath.Keys == m.idToPath.Keys && n.idToInode == m.idToInode && n.nextFileid == m.nextFileid
    && forall other | other in m.idToPath && other != id :: n.idToPath[other] == m.idToPath[other]
  }

  /** Exactly the aliases that are gone from the disk are unmapped. */
  ghost predicate DropsGone(m: State, n: State, id: FileId, probe: Probe)
    requires id in m.idToPath
  {
    && (forall p :: p in n.pathToId <==> p in m.pathToId && (p in m.idToPath[id].aliases ==> p in probe.present))
    && (forall p | p in n.pathToId :: n.pathToId[p] == m.pathToId[p])
  }

  /** What a refresh that keeps the entry leaves: the aliases still there, the first of
      them as name, the children, the attributes reported on Reload and the old ones
      otherwise, and nothing else changed. */
  lemma RefreshLeaves(m: State, id: FileId, probe: Probe, depth: nat)
    requires Inv(m) && id in m.idToPath && RefreshEntry(m, id, probe, depth).Some?
    requires RefreshEntry(m, id, probe, depth).value.1 != Ok(Delete)
    ensures var (n, r) := RefreshEntry(m, id, probe, depth).value; var present := Present(m, id, probe);
      && OthersStay(m, n, id) && DropsGone(m, n, id, probe)
      && n.idToPath[id].aliases == present && IsLeast(n.idToPath[id].name, present)
      && n.idToPath[id].children == m.idToPath[id].children
      && n.idToPath[id].fsmeta == (if r == Ok(Reload) then ToAttr(id, probe.meta.value) else m.idToPath[id].fsmeta)
  {
    RefreshAnswers(m, id, probe, depth);
  }

  /** After Delete the first path that was still there is not mapped any more, and no
      path outside its tree went with it. */
  lemma DeleteLeaves(m: State, id: FileId, probe: Probe, depth: nat)
    requires Inv(m) && id in m.idToPath && RefreshEntry(m, id, probe, depth).Some?
    requires RefreshEntry(m, id, probe, depth).value.1 == Ok(Delete) && Present(m, id, probe) != {}
    ensures var n := RefreshEntry(m, id, probe, depth).value.0; var first := Least(Present(m, id, probe));
      && first !in n.pathToId
      && (forall p | p in m.pathToId && !(first <= p) && (p in m.idToPath[id].aliases ==> p in probe.present) ::
        p in n.pathToId && n.pathToId[p] == m.pathToId[p])
  {
    var kept := KeepPresent(m, id, probe.present);
    KeepPresentKeeps(m, id, probe.present);
    DeleteShape(m, id, probe, depth);
    TreeRemoval(kept, kept.idToPath[id].name, id, depth);
  }

  // ---- create_entry ------------------------------------------------------

  /** The path is cached as the inode already. */
  ghost predicate Known(m: State, path: Path, inode: InodeKey) {
    path in m.pathToId && m.pathToId[path] in m.idToInode && m.idToInode[m.pathToId[path]] == inode
  }

  /** The id of an entry: that of the path if it is cached as the inode, else that of the
      inode, of which the path becomes one more alias, else the next one, for an entry
      without further aliases or children. The attributes are those reported. */
  lemma CreateEntryAnswers(m: State, path: Path, meta: Meta)
    requires Inv(m)
    ensures var (n, id) := CreateEntry(m, path, meta); var attr := ToAttr(id, meta);
      && id in n.idToPath
      && if Known(m, path, meta.inode) then
           && id == m.pathToId[path] && id in m.idToPath && n.pathToId == m.pathToId
           && n.idToPath == m.idToPath[id := m.idToPath[id].(fsmeta := attr)]
         else if meta.inode in m.inodeToId then
           && id == m.inodeToId[meta.inode] && id in m.idToPath
           && n.idToPath[id] == m.idToPath[id].(fsmeta := attr, aliases := m.idToPath[id].aliases + {path})
         else
           && id == m.nextFileid && n.nextFileid == id + 1 && n.idToPath[id] == FSEntry(path, {path}, attr, attr, None)
  {
    if !Known(m, path, meta.inode) {
      DetachElsewhere(m, path, meta.inode);
    }
  }

  lemma DetachElsewhere(m: State, path: Path, inode: InodeKey)
    requires Inv(m) && !Known(m, path, inode)
    ensures var d := Detach(m, path, inode);
      && path !in d.pathToId && d.nextFileid == m.nextFileid
      && (inode in d.inodeToId <==> inode in m.inodeToId)
      && (inode in m.inodeToId ==>
        var id := m.inodeToId[inode];
        d.inodeToId[inode] == id && id in m.idToPath && id in d.idToPath && d.idToPath[id] == m.idToPath[id])
  {
    if path in m.pathToId {
      assert Lists(m, m.pathToId[path], path);
    }
  }

  // ---- refresh_dir_list --------------------------------------------------

  /** The scan ran to its end, and every entry could be looked at. */
  ghost predicate Complete(scan: Scan) {
    scan.Opened? && scan.fault.None? && forall i | 0 <= i < |scan.items| :: scan.items[i].meta.Some?
  }

  /** Why it did not: it could not start, an entry could not be looked at, or it was cut short. */
  ghost function ScanError(scan: Scan): Status
    requires !Complete(scan)
  {
    if scan.Unreadable? then scan.status
    else if exists i :: 0 <= i < |scan.items| && scan.items[i].meta.None? then IO
    else scan.fault.value
  }

  /** The name is cached as a child of the directory. */
  ghost predicate CachedChild(m: State, dir: FileId, name: Symbol) {
    dir in m.idToPath && m.idToPath[dir].children.Some? && name in m.idToPath[dir].children.value
  }

  lemma {:induction false} ScanSucceedsIff(m: State, dir: Path, items: seq<Listed>, found: map<Symbol, FileId>)
    ensures var r := ScanItems(m, dir, items, found).1;
      && (r.Ok? <==> forall i | 0 <= i < |items| :: items[i].meta.Some?)
      && (r.Error? ==> r.error == IO)
    decreases items
  {
    if items != [] && items[0].meta.Some? {
      var (m1, id) := CreateEntry(m, dir + [items[0].name], items[0].meta.value);
      ScanSucceedsIff(m1, dir, items[1..], found[items[0].name := id]);
      assert forall i | 0 < i < |items| :: items[i] == items[1..][i - 1];
      assert forall i | 0 <= i < |items[1..]| :: items[1..][i] == items[i + 1];
    }
  }

  /** A relisting succeeds on a directory if and only if its scan is complete, and
      otherwise answers with what stopped the scan; anything but a directory is left alone. */
  lemma RelistAnswers(m: State, id: FileId, scan: Scan)
    ensures var (n, r) := RefreshDirList(m, id, scan);
      if id !in m.idToPath then (n, r) == (m, Error(NoEnt))
      else if !m.idToPath[id].IsDirectory() then (n, r) == (m, Ok(()))
      else r == if Complete(scan) then Ok(()) else Error(ScanError(scan))
  {
    if id in m.idToPath && scan.Opened? {
      ScanSucceedsIff(m, m.idToPath[id].name, scan.items, map[]);
    }
  }

  /** A relisting that fails drops nothing: the cached children stay as they are, and a
      name that was not listed resolves as before. */
  lemma RelistFails(m: State, id: FileId, scan: Scan, s: Symbol)
    requires Inv(m) && id in m.idToPath && RefreshDirList(m, id, scan).1.Error?
    ensures var n := RefreshDirList(m, id, scan).0;
      && id in n.idToPath && n.idToPath[id].name == m.idToPath[id].name
      && n.idToPath[id].children == m.idToPath[id].children
      && (scan.Unreadable? ==> n == m)
      && (scan.Opened? && !Named(scan.items, s) ==> FindChild(n, id, s) == FindChild(m, id, s))
  {
    var e := m.idToPath[id];
    if scan.Opened? {
      ScanKeeps(m, id, e.name, scan.items, map[]);
      if !Named(scan.items, s) {
        var path := e.name + [s];
        forall i | 0 <= i < |scan.items| ensures path != e.name + [scan.items[i].name] {
          assert path[|e.name|] == s && (e.name + [scan.items[i].name])[|e.name|] == scan.items[i].name;
        }
        ScanElsewhere(m, e.name, scan.items, map[], path);
      }
    }
  }

  lemma {:induction false} ScanUpTo(m: State, dir: Path, items: seq<Listed>, found: map<Symbol, FileId>, k: nat)
    requires k < |items| && items[k].meta.None? && forall i | 0 <= i < k :: items[i].meta.Some?
    ensures ScanItems(m, dir, items, found).0 == ScanItems(m, dir, items[..k], found).0
    decreases items
  {
    if k > 0 {
      var (m1, id) := CreateEntry(m, dir + [items[0].name], items[0].meta.value);
      assert items[..k][0] == items[0] && items[..k][1..] == items[1..][..k - 1];
      ScanUpTo(m1, dir, items[1..], found[items[0].name := id], k - 1);
    }
  }

  /** What it had seen before it failed is cached: each name resolves to a live id of
      the inode it was seen with last. */
  lemma RelistFailedSees(m: State, id: FileId, scan: Scan, k: nat, i: nat)
    requires Inv(m) && id in m.idToPath && m.idToPath[id].IsDirectory() && RefreshDirList(m, id, scan).1.Error?
    requires scan.Opened? && i < k <= |scan.items| && forall j | 0 <= j < k :: scan.items[j].meta.Some?
    requires k < |scan.items| ==> scan.items[k].meta.None?
    requires forall j | i < j < k :: scan.items[j].name != scan.items[i].name
    ensures var n := RefreshDirList(m, id, scan).0; var r := FindChild(n, id, scan.items[i].name);
      && r.Ok? && r.value in n.idToPath && r.value in n.idToInode
      && n.idToInode[r.value] == scan.items[i].meta.value.inode
  {
    var e := m.idToPath[id];
    var items := scan.items[..k];
    if k < |scan.items| {
      ScanUpTo(m, e.name, scan.items, map[], k);
    } else {
      assert items == scan.items;
    }
    ScanSucceedsIff(m, e.name, items, map[]);
    ScanKeeps(m, id, e.name, items, map[]);
    ScanBinds(m, id, e.name, items, map[], i);
    var n := ScanItems(m, e.name, items, map[]).0;
    assert Lists(n, n.pathToId[e.name + [items[i].name]], e.name + [items[i].name]);
  }

  lemma {:induction false} DropElsewhere(
    m: State, dir: Path, names: seq<Symbol>, found: map<Symbol, FileId>, p: Path)
    requires forall s | s in names && s !in found :: p != dir + [s]
    ensures SameMapping(m, DropAbsent(m, dir, names, found), p)
    decreases names
  {
    if names != [] {
      var m1 := if names[0] in found then m else RemovePath(m, dir + [names[0]]);
      assert forall s | s in names[1..] :: s in names;
      DropElsewhere(m1, dir, names[1..], found, p);
    }
  }

  /** A successful relisting changes the paths of listed names, unmaps those of the
      children cached before and not listed, and touches no other path. */
  lemma RelistTouches(m: State, id: FileId, scan: Scan, p: Path)
    requires Inv(m) && Relisted(m, id, scan)
    requires forall i | 0 <= i < |scan.items| :: p != m.idToPath[id].name + [scan.items[i].name]
    ensures var n := RefreshDirList(m, id, scan).0;
      if exists s :: CachedChild(m, id, s) && p == m.idToPath[id].name + [s]
      then p !in n.pathToId
      else SameMapping(m, n, p)
  {
    var e := m.idToPath[id];
    var (scanned, r) := ScanItems(m, e.name, scan.items, map[]);
    var names := Ascending(KnownChildren(e));
    ScanElsewhere(m, e.name, scan.items, map[], p);
    RelistAgrees(m, id, scan);
    if s :| CachedChild(m, id, s) && p == e.name + [s] {
      assert s in KnownChildren(e);
      assert !Named(scan.items, s);
    } else {
      DropElsewhere(scanned, e.name, names, r.value, p);
    }
  }
}
