/** What lookup and readdir answer, and when. */
module MirrorFsAnswers {
  import opened Wrappers
  import opened Ordered
  import opened FsMapState
  import opened FsMapInvariant
  import opened FsMapTree
  import opened FsMapRefresh
  import opened FsMapAnswers
  import opened MirrorFsCalls
  import opened MirrorFsRuns
  import opened MirrorFsPromises

  // ---- from the disk -----------------------------------------------------

  /** What the cache has under the first alias of `dir` that exists. */
  ghost function Remaining(m: State, dir: FileId, name: Symbol, probe: Probe): Result<FileId, Status>
    requires dir in m.idToPath && Present(m, dir, probe) != {}
  {
    var path := Least(Present(m, dir, probe)) + [name];
    if path in m.pathToId && (path in m.idToPath[dir].aliases ==> path in probe.present)
    then Ok(m.pathToId[path]) else Error(NoEnt)
  }

  /** The id stands for the inode with which the name was listed last. */
  ghost predicate ListedLast(n: State, items: seq<Listed>, name: Symbol, id: FileId) {
    && id in n.idToPath && id in n.idToInode
    && forall i | 0 <= i < |items| && items[i].name == name && (forall j | i < j < |items| :: items[j].name != name) ::
      items[i].meta.Some? && n.idToInode[id] == items[i].meta.value.inode
  }

  lemma RefreshedFinds(m: State, dir: FileId, name: Symbol, probe: Probe, depth: nat)
    requires Inv(m) && dir in m.idToPath && Confirmed(m, dir, probe) && RefreshEntry(m, dir, probe, depth).Some?
    ensures var (m1, r) := RefreshEntry(m, dir, probe, depth).value;
      && (r == Ok(Noop) || r == Ok(Reload)) && Inv(m1) && dir in m1.idToPath
      && m1.idToPath[dir].IsDirectory() == m.idToPath[dir].IsDirectory()
      && m1.idToPath[dir].children == m.idToPath[dir].children
      && FindChild(m1, dir, name) == Remaining(m, dir, name, probe)
  {
    RefreshAnswers(m, dir, probe, depth);
    RefreshLeaves(m, dir, probe, depth);
    RefreshKeeps(m, dir, probe, depth);
    var m1 := RefreshEntry(m, dir, probe, depth).value.0;
    LeastUnique(m1.idToPath[dir].name, Least(Present(m, dir, probe)), Present(m, dir, probe));
  }

  /** After a complete relisting a name is what the scan listed, or else what it was,
      unless it was a cached child. */
  lemma RelistedFinds(m: State, dir: FileId, name: Symbol, scan: Scan)
    requires Inv(m) && dir in m.idToPath && m.idToPath[dir].IsDirectory() && Complete(scan)
    ensures var (n, r) := RefreshDirList(m, dir, scan); var found := FindChild(n, dir, name);
      && r == Ok(())
      && (Named(scan.items, name) ==> found.Ok? && ListedLast(n, scan.items, name, found.value))
      && (!Named(scan.items, name) ==>
        found == if CachedChild(m, dir, name) then Error(NoEnt) else FindChild(m, dir, name))
  {
    RelistAnswers(m, dir, scan);
    assert Relisted(m, dir, scan);
    RelistAgrees(m, dir, scan);
    RelistKeeps(m, dir, scan);
    var n := RefreshDirList(m, dir, scan).0;
    if Named(scan.items, name) {
      forall i | 0 <= i < |scan.items| && scan.items[i].name == name
          && (forall j | i < j < |scan.items| :: scan.items[j].name != name)
        ensures scan.items[i].meta.Some?
        ensures n.idToInode[FindChild(n, dir, name).value] == scan.items[i].meta.value.inode
      {
        RelistBinds(m, dir, scan, i);
      }
    } else {
      var path := m.idToPath[dir].name + [name];
      forall i | 0 <= i < |scan.items| ensures path != m.idToPath[dir].name + [scan.items[i].name] {
        assert path[|m.idToPath[dir].name|] == name;
        assert (m.idToPath[dir].name + [scan.items[i].name])[|m.idToPath[dir].name|] == scan.items[i].name;
      }
      RelistTouches(m, dir, scan, path);
      forall s | path == m.idToPath[dir].name + [s] ensures s == name {
        assert path[|m.idToPath[dir].name|] == name;
        assert (m.idToPath[dir].name + [s])[|m.idToPath[dir].name|] == s;
      }
    }
  }

  /** When the cache has no answer: each answer under the disk's answers. */
  lemma LookupOnDiskAnswers(m: State, dir: FileId, name: Symbol, disk: LookupDisk, depth: nat)
    requires Inv(m) && LookupOnDisk(m, dir, name, disk, depth).Some?
    ensures var (n, r) := LookupOnDisk(m, dir, name, disk, depth).value;
      if dir !in m.idToPath || !disk.exists_ then (n, r) == (m, Error(NoEnt))
      else if NoMetadata(m, dir, disk.dir) then r == Error(IO)
      else if !Confirmed(m, dir, disk.dir) then r == Error(NoEnt)
      else if !m.idToPath[dir].IsDirectory() then r == Remaining(m, dir, name, disk.dir)
      else if !Complete(disk.scan) then r == Error(ScanError(disk.scan))
      else if Named(disk.scan.items, name) then r.Ok? && ListedLast(n, disk.scan.items, name, r.value)
      else if CachedChild(m, dir, name) then r == Error(NoEnt)
      else r == Remaining(m, dir, name, disk.dir)
  {
    if dir in m.idToPath && disk.exists_ {
      RefreshAnswers(m, dir, disk.dir, depth);
      if Confirmed(m, dir, disk.dir) {
        RefreshedFinds(m, dir, name, disk.dir, depth);
        var m1 := RefreshEntry(m, dir, disk.dir, depth).value.0;
        RelistAnswers(m1, dir, disk.scan);
        if m.idToPath[dir].IsDirectory() && Complete(disk.scan) {
          RelistedFinds(m1, dir, name, disk.scan);
        }
      }
    }
  }

  // ---- from the cache ----------------------------------------------------

  /** What a name is cached as is answered if the disk confirms it, an error if the disk
      does not say, and else the disk is asked for the name. */
  lemma LookupAnswers(m: State, dir: FileId, name: Symbol, disk: LookupDisk, depth: nat)
    requires Inv(m) && Lookup(m, dir, name, disk, depth).Some?
    ensures var hit := FindChild(m, dir, name); var o := Lookup(m, dir, name, disk, depth);
      && (hit.Ok? ==> hit.value in m.idToPath)
      && if hit.Error? then o == LookupOnDisk(m, dir, name, disk, depth)
         else if NoMetadata(m, hit.value, disk.child) then o.value.1 == Error(IO)
         else if !Confirmed(m, hit.value, disk.child) then
           && RefreshEntry(m, hit.value, disk.child, depth).Some?
           && o == LookupOnDisk(RefreshEntry(m, hit.value, disk.child, depth).value.0, dir, name, disk, depth)
         else if hit.value != dir then
           o.value.1 == if m.idToPath[dir].name + [name] in disk.child.present then hit else Error(NoEnt)
         else o.value.1 == if Remaining(m, dir, name, disk.child).Ok? then hit else Error(NoEnt)
  {
    var hit := FindChild(m, dir, name);
    if hit.Ok? {
      var path := m.idToPath[dir].name + [name];
      assert Lists(m, hit.value, path);
      RefreshAnswers(m, hit.value, disk.child, depth);
      if Confirmed(m, hit.value, disk.child) {
        if hit.value == dir {
          RefreshedFinds(m, dir, name, disk.child, depth);
        } else {
          RefreshLeaves(m, hit.value, disk.child, depth);
        }
      }
    }
  }

  /** A name that is not cached is found if the disk has it. */
  lemma UncachedIsFound(m: State, dir: FileId, name: Symbol, disk: LookupDisk, depth: nat)
    requires Inv(m) && Lookup(m, dir, name, disk, depth).Some? && FindChild(m, dir, name).Error?
    requires dir in m.idToPath && disk.exists_ && Confirmed(m, dir, disk.dir) && m.idToPath[dir].IsDirectory()
    requires Complete(disk.scan) && Named(disk.scan.items, name)
    ensures var (n, r) := Lookup(m, dir, name, disk, depth).value;
      r.Ok? && ListedLast(n, disk.scan.items, name, r.value)
  {
    LookupAnswers(m, dir, name, disk, depth);
    LookupOnDiskAnswers(m, dir, name, disk, depth);
  }

  /** No alias of the entry is mapped to another. */
  ghost predicate OwnPaths(m: State, id: FileId)
    requires id in m.idToPath
  {
    forall p | p in m.idToPath[id].aliases && p in m.pathToId :: m.pathToId[p] == id
  }

  /** Deleting an entry without a tree leaves every other entry as it was. */
  lemma LeafDeletedElsewhere(m: State, id: FileId, probe: Probe, depth: nat, other: FileId)
    requires Inv(m) && id in m.idToPath && !HasTree(m.idToPath[id]) && OwnPaths(m, id)
    requires RefreshEntry(m, id, probe, depth).Some? && RefreshEntry(m, id, probe, depth).value.1 == Ok(Delete)
    requires other in m.idToPath && other != id
    ensures var n := RefreshEntry(m, id, probe, depth).value.0;
      && other in n.idToPath && n.idToPath[other] == m.idToPath[other]
      && other in n.idToInode && n.idToInode[other] == m.idToInode[other]
  {
    var kept := KeepPresent(m, id, probe.present);
    KeepPresentKeeps(m, id, probe.present);
    DeleteShape(m, id, probe, depth);
    LeafRemoval(kept, kept.idToPath[id].name, id, depth);
    assert Lists(m, id, m.idToPath[id].name);
    assert kept.idToPath[id].name in m.idToPath[id].aliases;
  }

  /** A file that was replaced on disk is found as the file that is there now; when
      that has another inode, under another id. */
  lemma ReplacedIsFound(m: State, dir: FileId, name: Symbol, disk: LookupDisk, depth: nat, hit: FileId)
    requires Inv(m) && Lookup(m, dir, name, disk, depth).Some? && FindChild(m, dir, name) == Ok(hit) && hit != dir
    requires hit in m.idToPath && !HasTree(m.idToPath[hit]) && OwnPaths(m, hit)
    requires !Confirmed(m, hit, disk.child) && !NoMetadata(m, hit, disk.child)
    requires disk.exists_ && Confirmed(m, dir, disk.dir) && m.idToPath[dir].IsDirectory()
    requires Complete(disk.scan) && Named(disk.scan.items, name)
    ensures var (n, r) := Lookup(m, dir, name, disk, depth).value;
      && r.Ok? && ListedLast(n, disk.scan.items, name, r.value)
      && (n.idToInode[r.value] != m.idToInode[hit] ==> r.value != hit)
  {
    LookupAnswers(m, dir, name, disk, depth);
    RefreshAnswers(m, hit, disk.child, depth);
    var m1 := RefreshEntry(m, hit, disk.child, depth).value.0;
    RefreshKeeps(m, hit, disk.child, depth);
    LeafDeletedElsewhere(m, hit, disk.child, depth, dir);
    LookupKeeps(m, dir, name, disk, depth);
    ListedIsFound(m1, dir, name, disk, depth);
  }

  lemma ListedIsFound(m: State, dir: FileId, name: Symbol, disk: LookupDisk, depth: nat)
    requires Inv(m) && LookupOnDisk(m, dir, name, disk, depth).Some?
    requires dir in m.idToPath && disk.exists_ && Confirmed(m, dir, disk.dir) && m.idToPath[dir].IsDirectory()
    requires Complete(disk.scan) && Named(disk.scan.items, name)
    ensures var (n, r) := LookupOnDisk(m, dir, name, disk, depth).value;
      r.Ok? && ListedLast(n, disk.scan.items, name, r.value)
  {
    LookupOnDiskAnswers(m, dir, name, disk, depth);
  }

  // ---- readdir -----------------------------------------------------------

  lemma {:induction false} ChildrenMissing(
    m: State, children: map<Symbol, FileId>, names: seq<Symbol>, listed: seq<DirEntry>)
    requires forall s | s in names :: s in children
    ensures var r := ListChildren(m, children, names, listed);
      r.Error? ==> r.error == NoEnt && exists s :: s in names && children[s] !in m.idToPath
    decreases names
  {
    if names != [] && children[names[0]] in m.idToPath {
      var entry := DirEntry(children[names[0]], Child(names[0]), m.idToPath[children[names[0]]].fsmeta);
      ChildrenMissing(m, children, names[1..], listed + [entry.(attr := entry.attr.(fileid := entry.fileid))]);
      assert forall s | s in names[1..] :: s in names;
    }
  }

  /** Each error of a listing: NOTDIR for a file, IO when the children or the path of the
      parent are not cached, and NOENT when the directory or a child is not. */
  lemma ListingErrors(m: State, dir: FileId)
    requires Inv(m)
    ensures var r := Listing(m, dir);
      && (r == Error(NotDir) <==> dir in m.idToPath && !m.idToPath[dir].IsDirectory())
      && (r == Error(IO) <==>
        && dir in m.idToPath && m.idToPath[dir].IsDirectory()
        && (m.idToPath[dir].children.None? || !ParentMapped(m, dir)))
      && (r == Error(NoEnt) && dir in m.idToPath ==>
        && m.idToPath[dir].children.Some?
        && exists s :: CachedChild(m, dir, s) && m.idToPath[dir].children.value[s] !in m.idToPath)
  {
    if dir in m.idToPath && m.idToPath[dir].IsDirectory() && m.idToPath[dir].children.Some? && ParentMapped(m, dir) {
      var e := m.idToPath[dir];
      var parent := if e.name == [] then dir else m.pathToId[e.name[..|e.name| - 1]];
      assert e.name != [] ==> Lists(m, parent, e.name[..|e.name| - 1]);
      var self := DirEntry(dir, Dot, e.fsmeta.(fileid := dir));
      var up := DirEntry(parent, DotDot, m.idToPath[parent].fsmeta.(fileid := parent));
      ChildrenMissing(m, e.children.value, Ascending(e.children.value.Keys), [self, up]);
    }
  }

  /** All that was scanned, with the directory and its parent; or IO, when the path of
      the parent is not cached. */
  ghost predicate ListedOrOrphan(n: State, dir: FileId, scan: Scan, r: Result<seq<DirEntry>, Status>)
    requires dir in n.idToPath && scan.Opened?
  {
    if !ParentMapped(n, dir) then r == Error(IO)
    else
      var names := Ascending(KnownChildren(n.idToPath[dir]));
      r.Ok? && ListsAll(n, dir, names, r.value) && forall s :: s in names <==> Named(scan.items, s)
  }

  /** The answer from a relisting; `n` is the cache after it. */
  ghost predicate ListingAnswer(
    m: State, dir: FileId, scan: Scan, n: State, r: Result<seq<DirEntry>, Status>)
  {
    if dir !in m.idToPath then r == Error(NoEnt)
    else if !m.idToPath[dir].IsDirectory() then r == Error(NotDir)
    else if !Complete(scan) then r == Error(ScanError(scan))
    else dir in n.idToPath && (n.idToPath[dir].IsDirectory() ==> ListedOrOrphan(n, dir, scan, r))
  }

  lemma RelistedAnswers(m: State, dir: FileId, scan: Scan)
    requires Inv(m)
    ensures var (n, listed) := RefreshDirList(m, dir, scan);
      ListingAnswer(m, dir, scan, n, if listed.Error? then Error(listed.error) else Listing(n, dir))
  {
    RelistAnswers(m, dir, scan);
    if dir in m.idToPath && m.idToPath[dir].IsDirectory() && Complete(scan) {
      assert Relisted(m, dir, scan);
      ListingComplete(m, dir, scan);
      var n := RefreshDirList(m, dir, scan).0;
      if n.idToPath[dir].IsDirectory() && !ParentMapped(n, dir) {
        RelistAgrees(m, dir, scan);
      }
    }
  }

  /** readdir: each answer under the disk's answers; after a deletion, whatever the cache
      still has of the directory is listed. */
  lemma ReadDirAnswers(m: State, dir: FileId, probe: Probe, scan: Scan, depth: nat)
    requires Inv(m) && ReadDir(m, dir, probe, scan, depth).Some?
    ensures var (n, r) := ReadDir(m, dir, probe, scan, depth).value;
      if dir !in m.idToPath then (n, r) == (m, Error(NoEnt))
      else if NoMetadata(m, dir, probe) then r == Error(IO)
      else
        var refreshed := RefreshEntry(m, dir, probe, depth);
        && refreshed.Some? && ListingAnswer(refreshed.value.0, dir, scan, n, r)
        && (Confirmed(m, dir, probe) ==>
          && dir in refreshed.value.0.idToPath
          && refreshed.value.0.idToPath[dir].IsDirectory() == m.idToPath[dir].IsDirectory())
  {
    if dir in m.idToPath {
      RefreshAnswers(m, dir, probe, depth);
      RefreshKeeps(m, dir, probe, depth);
      RelistedAnswers(RefreshEntry(m, dir, probe, depth).value.0, dir, scan);
      if Confirmed(m, dir, probe) {
        RefreshedFinds(m, dir, 0, probe, depth);
      }
    } else {
      RefreshUnknown(m, dir, probe, depth);
    }
  }
}
