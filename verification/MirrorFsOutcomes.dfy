/** What create, mknod, link, remove and rename answer, and when, and what they leave
    of the directory's cached children. */
module MirrorFsOutcomes {
  import opened Wrappers
  import opened Ordered
  import opened FsMapState
  import opened FsMapInvariant
  import opened FsMapTree
  import opened FsMapRename
  import opened FsMapRefresh
  import opened FsMapAnswers
  import opened MirrorFsCalls
  import opened MirrorFsRuns
  import opened MirrorFsPromises
  import opened MirrorFsEffects

  // ---- create, mknod, link -----------------------------------------------

  /** The disk still has the directory, and under the name it is cached by first. */
  ghost predicate InPlace(m: State, dir: FileId, probe: Probe) {
    && dir in m.idToPath && dir in m.idToInode && Confirmed(m, dir, probe)
    && IsLeast(m.idToPath[dir].name, Present(m, dir, probe))
  }

  ghost function WithChild(children: Option<map<Symbol, FileId>>, name: Symbol, id: FileId)
    : Option<map<Symbol, FileId>>
  {
    if children.Some? then Some(children.value[name := id]) else None
  }

  ghost function WithoutChild(children: Option<map<Symbol, FileId>>, name: Symbol): Option<map<Symbol, FileId>> {
    if children.Some? then Some(children.value - {name}) else None
  }

  /** The name was entered: it resolves to the id, which stands for the inode and has
      the attributes reported, and is a cached child if the children are cached. */
  ghost predicate Entered(m: State, n: State, dir: FileId, name: Symbol, id: FileId, meta: Meta)
    requires dir in m.idToPath
  {
    && Resolves(n, dir, name, id, meta.inode) && dir in n.idToPath
    && n.idToPath[id].fsmeta == ToAttr(id, meta)
    && n.pathToId == m.pathToId[m.idToPath[dir].name + [name] := id]
    && n.idToPath[dir].name == m.idToPath[dir].name
    && n.idToPath[dir].children == WithChild(m.idToPath[dir].children, name, id)
  }

  lemma EntersChild(m: State, dir: FileId, name: Symbol, meta: Meta)
    requires Inv(m) && dir in m.idToPath
    ensures var (n, r) := EnterChild(m, dir, m.idToPath[dir].name + [name], name, meta);
      r.Ok? && Entered(m, n, dir, name, r.value, meta)
  {
    var path := m.idToPath[dir].name + [name];
    CreateOtherStays(m, path, meta, dir);
    CreateEntryMaps(m, path, meta);
    CreateEntryBinds(m, path, meta);
  }

  /** mknod succeeds if and only if its directory is cached, the node was made and its
      metadata can be read; it is entered then, and otherwise nothing changes. */
  lemma MakeNodeAnswers(m: State, dir: FileId, name: Symbol, disk: NodeDisk)
    requires Inv(m)
    ensures var (n, r) := MakeNode(m, dir, name, disk);
      if dir !in m.idToPath then (n, r) == (m, Error(NoEnt))
      else if disk.made.Error? then (n, r) == (m, Error(disk.made.error))
      else if disk.meta.None? then (n, r) == (m, Error(IO))
      else r.Ok? && Entered(m, n, dir, name, r.value, disk.meta.value)
  {
    if dir in m.idToPath && disk.made.Ok? && disk.meta.Some? {
      EntersChild(m, dir, name, disk.meta.value);
    }
  }

  /** link succeeds if and only if both files are cached, the link was made and both can
      be read; it answers the source's new attributes and caches them. */
  lemma LinkAnswers(m: State, file: FileId, dir: FileId, name: Symbol, disk: NodeDisk, source: Option<Meta>)
    requires Inv(m)
    ensures var (n, r) := Link(m, file, dir, name, disk, source);
      if file !in m.idToPath || dir !in m.idToPath then (n, r) == (m, Error(NoEnt))
      else if disk.made.Error? then (n, r) == (m, Error(disk.made.error))
      else if disk.meta.None? then (n, r) == (m, Error(IO))
      else
        && FindChild(n, dir, name).Ok? && dir in n.idToPath
        && var id := FindChild(n, dir, name).value;
        && n.pathToId == m.pathToId[m.idToPath[dir].name + [name] := id]
        && id in n.idToInode && n.idToInode[id] == disk.meta.value.inode
        && n.idToPath[dir].children == WithChild(m.idToPath[dir].children, name, id)
        && if source.None? then r == Error(IO)
           else
             && r == Ok(ToAttr(file, source.value))
             && (file in n.idToPath ==> n.idToPath[file].fsmeta == ToAttr(file, source.value))
  {
    MakeNodeAnswers(m, dir, name, disk);
  }

  /** Some path now is cached as the inode. */
  ghost predicate PathBound(n: State, path: Path, inode: InodeKey) {
    && path in n.pathToId && n.pathToId[path] in n.idToInode && n.idToInode[n.pathToId[path]] == inode
  }

  /** create, mkdir and symlink: each answer under the disk's answers; the path stands
      for the new object whenever that could be made and looked at. */
  lemma CreateAnswers(m: State, dir: FileId, name: Symbol, disk: CreateDisk, depth: nat)
    requires Inv(m) && CreateObject(m, dir, name, disk, depth).Some?
    ensures var (n, r) := CreateObject(m, dir, name, disk, depth).value;
      if dir !in m.idToPath then (n, r) == (m, Error(NoEnt))
      else if disk.made.Error? then (n, r) == (m, Error(disk.made.error))
      else if NoMetadata(m, dir, disk.dir) || disk.meta.None? then r == Error(IO)
      else
        var path := m.idToPath[dir].name + [name];
        && PathBound(n, path, disk.meta.value.inode)
        && (forall p | p in m.idToPath[dir].aliases && p !in disk.dir.present && p != path :: p !in n.pathToId)
        && r == if dir in n.idToPath then Ok(n.pathToId[path]) else Error(NoEnt)
  {
    if dir in m.idToPath && disk.made.Ok? {
      RefreshAnswers(m, dir, disk.dir, depth);
      RefreshKeeps(m, dir, disk.dir, depth);
      if disk.meta.Some? && !NoMetadata(m, dir, disk.dir) {
        var m1 := RefreshEntry(m, dir, disk.dir, depth).value.0;
        RefreshUnmaps(m, dir, disk.dir, depth);
        EntersPath(m1, dir, m.idToPath[dir].name + [name], name, disk.meta.value);
      }
    }
  }

  lemma EntersPath(m: State, dir: FileId, path: Path, name: Symbol, meta: Meta)
    requires Inv(m)
    ensures var (n, r) := EnterChild(m, dir, path, name, meta);
      && PathBound(n, path, meta.inode) && n.pathToId.Keys == m.pathToId.Keys + {path}
      && r == if dir in n.idToPath then Ok(n.pathToId[path]) else Error(NoEnt)
  {
    CreateEntryMaps(m, path, meta);
    CreateEntryBinds(m, path, meta);
  }

  /** With the directory in place they succeed, and the object is entered. */
  lemma CreateEnters(m: State, dir: FileId, name: Symbol, disk: CreateDisk, depth: nat)
    requires Inv(m) && CreateObject(m, dir, name, disk, depth).Some?
    requires InPlace(m, dir, disk.dir) && disk.made.Ok? && disk.meta.Some?
    ensures var (n, r) := CreateObject(m, dir, name, disk, depth).value;
      && r.Ok? && Resolves(n, dir, name, r.value, disk.meta.value.inode) && dir in n.idToPath
      && n.idToPath[r.value].fsmeta == ToAttr(r.value, disk.meta.value)
      && n.idToPath[dir].name == m.idToPath[dir].name
      && n.idToPath[dir].children == WithChild(m.idToPath[dir].children, name, r.value)
  {
    RefreshInPlace(m, dir, disk.dir, depth);
    EntersChild(RefreshEntry(m, dir, disk.dir, depth).value.0, dir, name, disk.meta.value);
  }

  /** A refresh of a directory in place keeps its name and children. */
  lemma RefreshInPlace(m: State, dir: FileId, probe: Probe, depth: nat)
    requires Inv(m) && InPlace(m, dir, probe) && RefreshEntry(m, dir, probe, depth).Some?
    ensures var (n, r) := RefreshEntry(m, dir, probe, depth).value;
      && (r == Ok(Noop) || r == Ok(Reload)) && Inv(n) && OthersStay(m, n, dir) && DropsGone(m, n, dir, probe)
      && n.idToPath[dir].name == m.idToPath[dir].name && n.idToPath[dir].children == m.idToPath[dir].children
      && n.idToPath[dir].aliases == Present(m, dir, probe)
      && n.idToPath[dir].fsmeta.ftype == m.idToPath[dir].fsmeta.ftype
  {
    RefreshAnswers(m, dir, probe, depth);
    RefreshLeaves(m, dir, probe, depth);
    RefreshKeeps(m, dir, probe, depth);
    var n := RefreshEntry(m, dir, probe, depth).value.0;
    LeastUnique(n.idToPath[dir].name, m.idToPath[dir].name, Present(m, dir, probe));
  }

  // ---- remove ------------------------------------------------------------

  lemma OtherAliasesStay(m: State, path: Path, id: FileId)
    requires id in m.idToPath && id in RemovePath(m, path).idToPath
    ensures m.idToPath[id].aliases - {path} <= RemovePath(m, path).idToPath[id].aliases
  {
  }

  lemma DropsChild(m: State, dir: FileId, name: Symbol)
    requires Inv(m) && dir in m.idToPath
    ensures var path := m.idToPath[dir].name + [name]; var n := DropChild(RemovePath(m, path), dir, name);
      && Inv(n) && n.pathToId == m.pathToId - {path}
      && dir in n.idToPath && n.idToPath[dir].name == m.idToPath[dir].name
      && n.idToPath[dir].children == WithoutChild(m.idToPath[dir].children, name)
      && m.idToPath[dir].aliases - {path} <= n.idToPath[dir].aliases
  {
    var path := m.idToPath[dir].name + [name];
    var m1 := RemovePath(m, path);
    RemovePathKeeps(m, path);
    RemovePathUnmaps(m, path);
    RemoveOtherStays(m, path, dir);
    OtherAliasesStay(m, path, dir);
    SameListsKeep(m1, DropChild(m1, dir, name));
  }

  /** remove succeeds if and only if its directory is cached and the file was there and
      could be removed; then the path is unmapped, the name is no cached child, and the
      directory has been refreshed, whatever came of that. */
  lemma RemoveAnswers(m: State, dir: FileId, name: Symbol, disk: RemoveDisk, depth: nat)
    requires Inv(m) && Remove(m, dir, name, disk, depth).Some?
    ensures var (n, r) := Remove(m, dir, name, disk, depth).value;
      if dir !in m.idToPath || !disk.found then (n, r) == (m, Error(NoEnt))
      else if !disk.removed then (n, r) == (m, Error(IO))
      else
        var path := m.idToPath[dir].name + [name];
        && r == Ok(()) && path !in n.pathToId
        && (forall p | p in n.pathToId :: p in m.pathToId && n.pathToId[p] == m.pathToId[p])
        && (forall p | p in m.idToPath[dir].aliases && p !in disk.dir.present && p != path :: p !in n.pathToId)
        && (dir in n.idToPath ==>
          n.idToPath[dir].children == WithoutChild(m.idToPath[dir].children, name))
  {
    if dir in m.idToPath && disk.found && disk.removed {
      DropsChild(m, dir, name);
      var m1 := DropChild(RemovePath(m, m.idToPath[dir].name + [name]), dir, name);
      RefreshUnmaps(m1, dir, disk.dir, depth);
      RefreshKeepsKinds(m1, dir, disk.dir, depth, dir);
    }
  }

  // ---- rename ------------------------------------------------------------

  /** rename answers NOENT if a directory is not cached or a path it needs is not on
      disk, IO if the disk refuses, and succeeds otherwise; the cache changes only if the
      disk renamed one file over another or to a new name. */
  lemma RenameAnswers(
    m: State, fromDir: FileId, fromName: Symbol, toDir: FileId, toName: Symbol, disk: RenameDisk, n: State, depth: nat)
    requires Renames(m, fromDir, fromName, toDir, toName, disk, n, depth)
    ensures var cached := fromDir in m.idToPath && toDir in m.idToPath && disk.toDirExists && disk.fromExists;
      var idle :=
        cached && (m.idToPath[fromDir].name + [fromName] == m.idToPath[toDir].name + [toName] || disk.same);
      var attempted := RenameAttempted(m, fromDir, fromName, toDir, toName, disk);
      var r := if attempted then Ok(()) else RenameRefusal(m, fromDir, fromName, toDir, toName, disk);
      && (r == Error(NoEnt) <==> !cached)
      && (r == Error(IO) <==> cached && !idle && !disk.renamed)
      && (r == Ok(()) <==> cached && (idle || disk.renamed))
      && (attempted <==> cached && !idle && disk.renamed)
      && (!attempted ==> n == m)
  {
  }

  /** The children cached for a directory once `fromName` left `fromDir` and `toName`
      came to `toDir`. */
  ghost function MovedChildren(
    m: State, fromDir: FileId, fromName: Symbol, toDir: FileId, toName: Symbol, id: FileId, dir: FileId)
    : Option<map<Symbol, FileId>>
    requires dir in m.idToPath
  {
    var left := if dir == fromDir then WithoutChild(m.idToPath[dir].children, fromName) else m.idToPath[dir].children;
    if dir == toDir then WithChild(left, toName, id) else left
  }

  lemma MoveChildLeaves(
    m: State, fromDir: FileId, fromName: Symbol, toDir: FileId, toName: Symbol, to: Path, dir: FileId)
    requires to in m.pathToId && dir in m.idToPath
    ensures var n := MoveChild(m, fromDir, fromName, toDir, toName, to);
      && dir in n.idToPath
      && n.idToPath[dir].children == MovedChildren(m, fromDir, fromName, toDir, toName, m.pathToId[to], dir)
  {
  }

  /** Clearing the target and moving the paths keep the name and children of a directory
      that lies below neither. */
  lemma RenamedStays(m: State, c: State, from: Path, to: Path, order: seq<Path>, dir: FileId)
    requires Inv(m) && Removal(m, c, to) && IsListing(order, Below(c, from)) && Apart(from, to)
    requires dir in m.idToPath && !(to <= m.idToPath[dir].name) && !(from <= m.idToPath[dir].name)
    ensures var n := RenamePrefix(c, from, to, order);
      && Inv(n) && dir in n.idToPath && n.idToPath[dir].name == m.idToPath[dir].name
      && n.idToPath[dir].children == m.idToPath[dir].children
      && n.idToPath[dir].fsmeta == m.idToPath[dir].fsmeta
  {
    var n := RenamePrefix(c, from, to, order);
    ApartNoChain(c, from, to);
    NoChainEntries(c, from, to, order);
    RenameKeeps(c, from, to, order);
    ClearedStays(m, c, to, dir);
    RelabelledStays(c, n, from, to, dir);
  }

  lemma ClearedStays(m: State, c: State, to: Path, dir: FileId)
    requires Inv(m) && Pruned(m, c, to) && dir in m.idToPath && !(to <= m.idToPath[dir].name)
    ensures dir in c.idToPath && c.idToPath[dir].name == m.idToPath[dir].name
    ensures c.idToPath[dir].children == m.idToPath[dir].children && c.idToPath[dir].fsmeta == m.idToPath[dir].fsmeta
  {
    assert Lists(m, dir, m.idToPath[dir].name) && Lists(c, dir, m.idToPath[dir].name);
  }

  lemma RelabelledStays(c: State, n: State, from: Path, to: Path, dir: FileId)
    requires EntriesRelabelled(c, n, from, to) && dir in c.idToPath && !(from <= c.idToPath[dir].name)
    ensures dir in n.idToPath && n.idToPath[dir].name == c.idToPath[dir].name
    ensures n.idToPath[dir].children == c.idToPath[dir].children && n.idToPath[dir].fsmeta == c.idToPath[dir].fsmeta
  {
  }

  /** Moving changes the cached children of the two directories alone, keeps the names
      of both, and the new name resolves to the id that moved. */
  lemma MoveLeaves(
    m: State, fromDir: FileId, fromName: Symbol, toDir: FileId, toName: Symbol, n: State, depth: nat, dir: FileId)
    requires Inv(m) && fromDir in m.idToPath && toDir in m.idToPath && dir in m.idToPath
    requires MovesTo(m, fromDir, fromName, toDir, toName, n, depth)
    requires var from := m.idToPath[fromDir].name + [fromName]; var to := m.idToPath[toDir].name + [toName];
      && from in m.pathToId && Apart(from, to)
      && !(to <= m.idToPath[dir].name) && !(from <= m.idToPath[dir].name)
    ensures var from := m.idToPath[fromDir].name + [fromName]; var to := m.idToPath[toDir].name + [toName];
      && Inv(n) && MapsTo(n, to, m.pathToId[from]) && from !in n.pathToId
      && dir in n.idToPath && n.idToPath[dir].name == m.idToPath[dir].name
      && n.idToPath[dir].children
        == MovedChildren(m, fromDir, fromName, toDir, toName, m.pathToId[from], dir)
  {
    var from := m.idToPath[fromDir].name + [fromName];
    var to := m.idToPath[toDir].name + [toName];
    var c, order, renamed := RenameStages(m, fromDir, fromName, toDir, toName, n, depth);
    MovedPaths(m, fromDir, fromName, toDir, toName, n, depth);
    RenamedStays(m, c, from, to, order, dir);
    MoveChildKeeps(renamed, fromDir, fromName, toDir, toName, to);
    MoveChildSameIndex(renamed, fromDir, fromName, toDir, toName, to);
    MoveChildLeaves(renamed, fromDir, fromName, toDir, toName, to, dir);
  }

  lemma MovedPaths(
    m: State, fromDir: FileId, fromName: Symbol, toDir: FileId, toName: Symbol, n: State, depth: nat)
    requires Inv(m) && fromDir in m.idToPath && toDir in m.idToPath
    requires MovesTo(m, fromDir, fromName, toDir, toName, n, depth)
    requires var from := m.idToPath[fromDir].name + [fromName];
      from in m.pathToId && Apart(from, m.idToPath[toDir].name + [toName])
    ensures var from := m.idToPath[fromDir].name + [fromName]; var to := m.idToPath[toDir].name + [toName];
      MapsTo(n, to, m.pathToId[from]) && from !in n.pathToId
  {
    var from := m.idToPath[fromDir].name + [fromName];
    var to := m.idToPath[toDir].name + [toName];
    RenameMovesSubtree(m, fromDir, fromName, toDir, toName, n, depth, to);
    RenameMovesSubtree(m, fromDir, fromName, toDir, toName, n, depth, from);
    assert Rebase(to, to, from) == from && from <= from && to <= to;
  }

  // ---- the refreshes at its end ------------------------------------------

  /** Both directories are refreshed: no alias of theirs that the disk no longer has is
      mapped afterwards. */
  lemma BothRefreshed(m: State, fromDir: FileId, toDir: FileId, disk: RenameDisk, depth: nat, p: Path)
    requires Inv(m) && fromDir in m.idToPath && toDir in m.idToPath
    requires RefreshBoth(m, fromDir, toDir, disk, depth).Some?
    ensures var n := RefreshBoth(m, fromDir, toDir, disk, depth).value;
      && Inv(n) && (p in n.pathToId ==> p in m.pathToId && n.pathToId[p] == m.pathToId[p])
      && (p in m.idToPath[fromDir].aliases && p !in disk.from.present ==> p !in n.pathToId)
      && (fromDir != toDir && Confirmed(m, fromDir, disk.from) ==>
        p in m.idToPath[toDir].aliases && p !in disk.to.present ==> p !in n.pathToId)
  {
    RefreshUnmaps(m, fromDir, disk.from, depth);
    RefreshKeeps(m, fromDir, disk.from, depth);
    var m1 := RefreshEntry(m, fromDir, disk.from, depth).value.0;
    if fromDir != toDir && toDir in m1.idToPath {
      RefreshUnmaps(m1, toDir, disk.to, depth);
      RefreshKeeps(m1, toDir, disk.to, depth);
    }
    if Confirmed(m, fromDir, disk.from) {
      RefreshAnswers(m, fromDir, disk.from, depth);
      RefreshLeaves(m, fromDir, disk.from, depth);
    }
  }

  /** Moving keeps the aliases that lie below neither path. */
  lemma MovedAlias(
    m: State, fromDir: FileId, fromName: Symbol, toDir: FileId, toName: Symbol, n: State, depth: nat,
    dir: FileId, p: Path)
    requires Inv(m) && fromDir in m.idToPath && toDir in m.idToPath && Lists(m, dir, p)
    requires MovesTo(m, fromDir, fromName, toDir, toName, n, depth)
    requires var from := m.idToPath[fromDir].name + [fromName]; var to := m.idToPath[toDir].name + [toName];
      Apart(from, to) && !(from <= p) && !(to <= p)
    ensures Inv(n) && Lists(n, dir, p)
  {
    var from := m.idToPath[fromDir].name + [fromName];
    var to := m.idToPath[toDir].name + [toName];
    if from in m.pathToId {
      var c, order, renamed := RenameStages(m, fromDir, fromName, toDir, toName, n, depth);
      assert Lists(c, dir, p);
      ApartNoChain(c, from, to);
      NoChainEntries(c, from, to, order);
      RenameKeeps(c, from, to, order);
      AliasRelabelled(c, renamed, from, to, dir, p);
      MoveChildKeeps(renamed, fromDir, fromName, toDir, toName, to);
      MoveChildSameIndex(renamed, fromDir, fromName, toDir, toName, to);
    }
  }

  lemma AliasRelabelled(c: State, n: State, from: Path, to: Path, dir: FileId, p: Path)
    requires EntriesRelabelled(c, n, from, to) && Lists(c, dir, p) && !(from <= p)
    ensures Lists(n, dir, p)
  {
    assert Relabel(c, dir, p, from, to) == p;
  }

  /** A rename that moves something refreshes both directories: an alias of the source's
      that is gone, and lies below neither path, is not mapped any more. So is one of the
      target's, when the moved cache has the source's directory confirmed. */
  lemma RenameRefreshes(
    m: State, fromDir: FileId, fromName: Symbol, toDir: FileId, toName: Symbol, disk: RenameDisk, n: State, depth: nat,
    p: Path) returns (moved: State)
    requires Inv(m) && RenameAttempted(m, fromDir, fromName, toDir, toName, disk)
    requires Renames(m, fromDir, fromName, toDir, toName, disk, n, depth)
    requires var from := m.idToPath[fromDir].name + [fromName]; var to := m.idToPath[toDir].name + [toName];
      Apart(from, to) && !(from <= p) && !(to <= p)
    ensures MovesTo(m, fromDir, fromName, toDir, toName, moved, depth)
    ensures Inv(moved) && fromDir in moved.idToPath && toDir in moved.idToPath
    ensures p in m.idToPath[fromDir].aliases && p !in disk.from.present ==> p !in n.pathToId
    ensures fromDir != toDir && Confirmed(moved, fromDir, disk.from) ==>
      p in m.idToPath[toDir].aliases && p !in disk.to.present ==> p !in n.pathToId
  {
    moved :| MovesTo(m, fromDir, fromName, toDir, toName, moved, depth)
      && Some(n) == RefreshBoth(moved, fromDir, toDir, disk, depth);
    var source, target := m.idToPath[fromDir].name, m.idToPath[toDir].name;
    assert Lists(m, fromDir, source) && Lists(m, toDir, target);
    assert source <= source + [fromName] && target <= target + [toName];
    MovedAlias(m, fromDir, fromName, toDir, toName, moved, depth, fromDir, source);
    MovedAlias(m, fromDir, fromName, toDir, toName, moved, depth, toDir, target);
    if Lists(m, fromDir, p) {
      MovedAlias(m, fromDir, fromName, toDir, toName, moved, depth, fromDir, p);
    }
    if Lists(m, toDir, p) {
      MovedAlias(m, fromDir, fromName, toDir, toName, moved, depth, toDir, p);
    }
    BothRefreshed(moved, fromDir, toDir, disk, depth, p);
  }

  /** The refresh of a directory in place, all of whose aliases are there, changes only
      its attributes. */
  ghost predicate OnlyAttributes(m: State, n: State, dir: FileId) {
    && dir in m.idToPath && OthersStay(m, n, dir) && n.pathToId == m.pathToId
    && n.idToPath[dir] == m.idToPath[dir].(fsmeta := n.idToPath[dir].fsmeta)
    && n.idToPath[dir].fsmeta.ftype == m.idToPath[dir].fsmeta.ftype
  }

  lemma RefreshOnlyAttributes(m: State, dir: FileId, probe: Probe, depth: nat)
    requires Inv(m) && InPlace(m, dir, probe) && m.idToPath[dir].aliases <= probe.present
    requires RefreshEntry(m, dir, probe, depth).Some?
    ensures var n := RefreshEntry(m, dir, probe, depth).value.0; Inv(n) && OnlyAttributes(m, n, dir)
  {
    RefreshInPlace(m, dir, probe, depth);
    assert Present(m, dir, probe) == m.idToPath[dir].aliases;
    assert RefreshEntry(m, dir, probe, depth).value.0.pathToId == m.pathToId;
  }

  lemma InPlaceStill(m: State, n: State, other: FileId, dir: FileId, probe: Probe)
    requires OnlyAttributes(m, n, other) && dir != other && InPlace(m, dir, probe)
    ensures InPlace(n, dir, probe) && n.idToPath[dir] == m.idToPath[dir]
  {
  }

  /** With both directories in place and all their aliases there, the refreshes keep
      what the rename has done. */
  lemma RefreshesKeepRename(m: State, fromDir: FileId, toDir: FileId, disk: RenameDisk, depth: nat, dir: FileId)
    requires Inv(m) && RefreshBoth(m, fromDir, toDir, disk, depth).Some? && (dir == fromDir || dir == toDir)
    requires InPlace(m, fromDir, disk.from) && m.idToPath[fromDir].aliases <= disk.from.present
    requires fromDir != toDir ==> InPlace(m, toDir, disk.to) && m.idToPath[toDir].aliases <= disk.to.present
    ensures var n := RefreshBoth(m, fromDir, toDir, disk, depth).value;
      && n.pathToId == m.pathToId && dir in n.idToPath
      && n.idToPath[dir].name == m.idToPath[dir].name && n.idToPath[dir].children == m.idToPath[dir].children
  {
    RefreshOnlyAttributes(m, fromDir, disk.from, depth);
    var m1 := RefreshEntry(m, fromDir, disk.from, depth).value.0;
    if fromDir != toDir {
      InPlaceStill(m, m1, fromDir, toDir, disk.to);
      RefreshOnlyAttributes(m1, toDir, disk.to, depth);
    }
  }
}
