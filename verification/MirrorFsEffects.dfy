/** What a client finds after create, mknod, link and remove. */
module MirrorFsEffects {
  import opened Wrappers
  import opened Ordered
  import opened FsMapState
  import opened FsMapInvariant
  import opened FsMapRefresh
  import opened MirrorFsCalls
  import opened MirrorFsRuns

  /** The name resolves in the directory to a live id that stands for the inode. */
  ghost predicate Resolves(m: State, dir: FileId, name: Symbol, id: FileId, inode: InodeKey) {
    && FindChild(m, dir, name) == Ok(id) && id in m.idToPath
    && id in m.idToInode && m.idToInode[id] == inode
  }

  ghost predicate SameName(m: State, n: State, dir: FileId) {
    dir in m.idToPath && dir in n.idToPath && n.idToPath[dir].name == m.idToPath[dir].name
  }

  lemma EnteredResolves(m: State, dir: FileId, path: Path, name: Symbol, meta: Meta)
    requires Inv(m) && EnterChild(m, dir, path, name, meta).1.Ok?
    ensures var (n, r) := EnterChild(m, dir, path, name, meta);
      && dir in n.idToPath
      && (n.idToPath[dir].name + [name] == path ==> Resolves(n, dir, name, r.value, meta.inode))
      && (dir in m.idToPath && path != m.idToPath[dir].name ==> SameName(m, n, dir))
  {
    var (m1, id) := CreateEntry(m, path, meta);
    CreateEntryMaps(m, path, meta);
    CreateEntryBinds(m, path, meta);
    if dir in m.idToPath && path != m.idToPath[dir].name {
      CreateOtherStays(m, path, meta, dir);
    }
  }

  /** A created object resolves to the id returned, unless refreshing its directory
      gave that another primary name. */
  lemma CreateResolves(m: State, dir: FileId, name: Symbol, disk: CreateDisk, depth: nat)
    requires Inv(m) && CreateObject(m, dir, name, disk, depth).Some?
    ensures var (n, r) := CreateObject(m, dir, name, disk, depth).value;
      r.Ok? ==>
        && disk.meta.Some? && dir in m.idToPath && dir in n.idToPath
        && (SameName(m, n, dir) ==> Resolves(n, dir, name, r.value, disk.meta.value.inode))
  {
    var (n, r) := CreateObject(m, dir, name, disk, depth).value;
    if r.Ok? {
      RefreshKeeps(m, dir, disk.dir, depth);
      var m1 := RefreshEntry(m, dir, disk.dir, depth).value.0;
      EnteredResolves(m1, dir, m.idToPath[dir].name + [name], name, disk.meta.value);
    }
  }

  /** A made node resolves to the id returned. */
  lemma MakeNodeResolves(m: State, dir: FileId, name: Symbol, disk: NodeDisk)
    requires Inv(m)
    ensures var (n, r) := MakeNode(m, dir, name, disk);
      r.Ok? ==> disk.meta.Some? && SameName(m, n, dir) && Resolves(n, dir, name, r.value, disk.meta.value.inode)
  {
    if MakeNode(m, dir, name, disk).1.Ok? {
      EnteredResolves(m, dir, m.idToPath[dir].name + [name], name, disk.meta.value);
    }
  }

  /** A hard link resolves to the id of its inode: to the source's own id exactly
      when the disk reports the source's inode for it. */
  lemma LinkResolves(m: State, file: FileId, dir: FileId, name: Symbol, disk: NodeDisk, source: Option<Meta>)
    requires Inv(m)
    ensures var (n, r) := Link(m, file, dir, name, disk, source);
      r.Ok? ==>
        && disk.meta.Some? && file in m.idToInode && SameName(m, n, dir) && FindChild(n, dir, name).Ok?
        && (file in n.idToPath ==>
          (FindChild(n, dir, name) == Ok(file) <==> disk.meta.value.inode == m.idToInode[file]))
  {
    var (n, r) := Link(m, file, dir, name, disk, source);
    if r.Ok? {
      MakeNodeResolves(m, dir, name, disk);
      MakeNodeKeeps(m, dir, name, disk);
      LinkKeepsAll(m, file, dir, name, disk, source);
    }
  }

  /** A removed name no longer resolves, unless refreshing its directory gave that
      another primary name; its path is not mapped in any case. */
  lemma RemovedIsGone(m: State, dir: FileId, name: Symbol, disk: RemoveDisk, depth: nat)
    requires Inv(m) && Remove(m, dir, name, disk, depth).Some?
    ensures var (n, r) := Remove(m, dir, name, disk, depth).value;
      r.Ok? ==>
        && dir in m.idToPath && m.idToPath[dir].name + [name] !in n.pathToId
        && (SameName(m, n, dir) ==> FindChild(n, dir, name) == Error(NoEnt))
  {
    if dir in m.idToPath && disk.found && disk.removed {
      var path := m.idToPath[dir].name + [name];
      RemovePathKeeps(m, path);
      var m1 := DropChild(RemovePath(m, path), dir, name);
      SameListsKeep(RemovePath(m, path), m1);
      if dir in m1.idToPath {
        RefreshUnmaps(m1, dir, disk.dir, depth);
      }
    }
  }
}
