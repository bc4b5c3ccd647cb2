/** Over whole runs paths and aliases stay exact inverses, as long as every refresh
    finds its file somewhere on disk and no rename clashes. */
module MirrorFsExact {
  import opened Wrappers
  import opened Ordered
  import opened FsMapState
  import opened FsMapInvariant
  import opened FsMapTree
  import opened FsMapRename
  import opened FsMapRefresh
  import opened MirrorFsCalls
  import opened MirrorFsPromises

  // ---- what a run must avoid ---------------------------------------------

  /** The disk still has one of the paths by which the cache knows the id. */
  ghost predicate Finds(m: State, id: FileId, probe: Probe) {
    id in m.idToPath ==> m.idToPath[id].aliases * probe.present != {}
  }

  ghost predicate CleanOnDisk(m: State, dir: FileId, disk: LookupDisk) {
    disk.exists_ ==> Finds(m, dir, disk.dir)
  }

  ghost predicate CleanLookup(m: State, dir: FileId, name: Symbol, disk: LookupDisk, depth: nat) {
    var hit := FindChild(m, dir, name);
    if hit.Ok? && hit.value in m.idToPath then
      && Finds(m, hit.value, disk.child)
      && var o := RefreshEntry(m, hit.value, disk.child, depth);
      (o.Some? && o.value.1 == Ok(Delete) ==> CleanOnDisk(o.value.0, dir, disk))
    else CleanOnDisk(m, dir, disk)
  }

  ghost predicate CleanRemove(m: State, dir: FileId, name: Symbol, disk: RemoveDisk) {
    dir in m.idToPath && disk.found && disk.removed ==>
      Finds(DropChild(RemovePath(m, m.idToPath[dir].name + [name]), dir, name), dir, disk.dir)
  }

  /** The cache after the move, with no path overwritten and both directories found again. */
  ghost predicate CleanMove(
    m: State, fromDir: FileId, fromName: Symbol, toDir: FileId, toName: Symbol, disk: RenameDisk,
    moved: State, n: State, depth: nat)
    requires fromDir in m.idToPath && toDir in m.idToPath
  {
    var from := m.idToPath[fromDir].name + [fromName];
    var to := m.idToPath[toDir].name + [toName];
    && MovesTo(m, fromDir, fromName, toDir, toName, moved, depth)
    && (from in m.pathToId ==> NoClash(ClearTarget(m, to, depth).value, from, to))
    && Some(n) == RefreshBoth(moved, fromDir, toDir, disk, depth)
    && Finds(moved, fromDir, disk.from)
    && (fromDir != toDir ==> Finds(RefreshEntry(moved, fromDir, disk.from, depth).value.0, toDir, disk.to))
  }

  ghost predicate CleanRename(
    m: State, fromDir: FileId, fromName: Symbol, toDir: FileId, toName: Symbol, disk: RenameDisk, n: State, depth: nat)
  {
    RenameAttempted(m, fromDir, fromName, toDir, toName, disk) ==>
      exists moved :: CleanMove(m, fromDir, fromName, toDir, toName, disk, moved, n, depth)
  }

  ghost predicate Clean(m: State, c: Call, n: State, depth: nat) {
    match c
    case CallLookup(dir, name, disk) => CleanLookup(m, dir, name, disk, depth)
    case CallRefresh(id, probe) => Finds(m, id, probe)
    case CallCreate(dir, name, disk) => disk.made.Ok? ==> Finds(m, dir, disk.dir)
    case CallMakeNode(_, _, _) => true
    case CallLink(_, _, _, _, _) => true
    case CallRemove(dir, name, disk) => CleanRemove(m, dir, name, disk)
    case CallRename(fromDir, fromName, toDir, toName, disk) =>
      CleanRename(m, fromDir, fromName, toDir, toName, disk, n, depth)
    case CallSetMeta(_, _) => true
    case CallReadDir(dir, probe, _) => Finds(m, dir, probe)
  }

  // ---- each call ---------------------------------------------------------

  lemma RefreshExact(m: State, id: FileId, probe: Probe, depth: nat)
    requires Exact(m) && Finds(m, id, probe) && RefreshEntry(m, id, probe, depth).Some?
    ensures Exact(RefreshEntry(m, id, probe, depth).value.0)
  {
    if id in m.idToPath {
      RefreshExactIff(m, id, probe, depth);
    }
  }

  lemma SameListsExact(m: State, n: State)
    requires Exact(m) && n == m.(idToPath := n.idToPath) && n.idToPath.Keys == m.idToPath.Keys
    requires forall id | id in m.idToPath ::
      n.idToPath[id].name == m.idToPath[id].name && n.idToPath[id].aliases == m.idToPath[id].aliases
    ensures Exact(n)
  {
    assert forall i, p :: Lists(n, i, p) <==> Lists(m, i, p);
  }

  lemma EnterChildExact(m: State, dir: FileId, path: Path, name: Symbol, meta: Meta)
    requires Exact(m)
    ensures Exact(EnterChild(m, dir, path, name, meta).0)
  {
    CreateEntryKeeps(m, path, meta);
    var (m1, id) := CreateEntry(m, path, meta);
    SameListsExact(m1, AddChild(m1, dir, name, id));
  }

  lemma LookupOnDiskExact(m: State, dir: FileId, name: Symbol, disk: LookupDisk, depth: nat)
    requires Exact(m) && LookupOnDisk(m, dir, name, disk, depth).Some? && CleanOnDisk(m, dir, disk)
    ensures Exact(LookupOnDisk(m, dir, name, disk, depth).value.0)
  {
    if dir in m.idToPath && disk.exists_ {
      RefreshExact(m, dir, disk.dir, depth);
      RelistKeeps(RefreshEntry(m, dir, disk.dir, depth).value.0, dir, disk.scan);
    }
  }

  lemma LookupExact(m: State, dir: FileId, name: Symbol, disk: LookupDisk, depth: nat)
    requires Exact(m) && Lookup(m, dir, name, disk, depth).Some? && CleanLookup(m, dir, name, disk, depth)
    ensures Exact(Lookup(m, dir, name, disk, depth).value.0)
  {
    var hit := FindChild(m, dir, name);
    if hit.Ok? && hit.value in m.idToPath {
      RefreshExact(m, hit.value, disk.child, depth);
      var (m1, r) := RefreshEntry(m, hit.value, disk.child, depth).value;
      if r == Ok(Delete) {
        LookupOnDiskExact(m1, dir, name, disk, depth);
      }
    } else {
      LookupOnDiskExact(m, dir, name, disk, depth);
    }
  }

  lemma CreateObjectExact(m: State, dir: FileId, name: Symbol, disk: CreateDisk, depth: nat)
    requires Exact(m) && CreateObject(m, dir, name, disk, depth).Some? && (disk.made.Ok? ==> Finds(m, dir, disk.dir))
    ensures Exact(CreateObject(m, dir, name, disk, depth).value.0)
  {
    if dir in m.idToPath && disk.made.Ok? {
      RefreshExact(m, dir, disk.dir, depth);
      var (m1, r) := RefreshEntry(m, dir, disk.dir, depth).value;
      if r.Ok? && disk.meta.Some? {
        EnterChildExact(m1, dir, m.idToPath[dir].name + [name], name, disk.meta.value);
      }
    }
  }

  lemma MakeNodeExact(m: State, dir: FileId, name: Symbol, disk: NodeDisk)
    requires Exact(m)
    ensures Exact(MakeNode(m, dir, name, disk).0)
  {
    if dir in m.idToPath && disk.meta.Some? {
      EnterChildExact(m, dir, m.idToPath[dir].name + [name], name, disk.meta.value);
    }
  }

  lemma LinkExact(m: State, file: FileId, dir: FileId, name: Symbol, disk: NodeDisk, source: Option<Meta>)
    requires Exact(m)
    ensures Exact(Link(m, file, dir, name, disk, source).0)
  {
    MakeNodeExact(m, dir, name, disk);
    if source.Some? {
      SetMetaKeeps(MakeNode(m, dir, name, disk).0, file, ToAttr(file, source.value));
    }
  }

  lemma RemoveExact(m: State, dir: FileId, name: Symbol, disk: RemoveDisk, depth: nat)
    requires Exact(m) && Remove(m, dir, name, disk, depth).Some? && CleanRemove(m, dir, name, disk)
    ensures Exact(Remove(m, dir, name, disk, depth).value.0)
  {
    if dir in m.idToPath && disk.found && disk.removed {
      var path := m.idToPath[dir].name + [name];
      RemovePathKeeps(m, path);
      var m1 := DropChild(RemovePath(m, path), dir, name);
      SameListsExact(RemovePath(m, path), m1);
      RefreshExact(m1, dir, disk.dir, depth);
    }
  }

  lemma MovesToExact(m: State, fromDir: FileId, fromName: Symbol, toDir: FileId, toName: Symbol, n: State, depth: nat)
    requires Exact(m) && fromDir in m.idToPath && toDir in m.idToPath
    requires MovesTo(m, fromDir, fromName, toDir, toName, n, depth)
    requires var from := m.idToPath[fromDir].name + [fromName]; var to := m.idToPath[toDir].name + [toName];
      && from != to && (from in m.pathToId ==> NoClash(ClearTarget(m, to, depth).value, from, to))
    ensures Exact(n)
  {
    var from := m.idToPath[fromDir].name + [fromName];
    var to := m.idToPath[toDir].name + [toName];
    if from in m.pathToId {
      var c, order, renamed := RenameStages(m, fromDir, fromName, toDir, toName, n, depth);
      NoClashKeepsExact(c, from, to, order);
      MoveChildSameIndex(renamed, fromDir, fromName, toDir, toName, to);
      SameListsExact(renamed, n);
    }
  }

  lemma RenameExact(
    m: State, fromDir: FileId, fromName: Symbol, toDir: FileId, toName: Symbol, disk: RenameDisk, n: State, depth: nat)
    requires Exact(m) && Renames(m, fromDir, fromName, toDir, toName, disk, n, depth)
    requires CleanRename(m, fromDir, fromName, toDir, toName, disk, n, depth)
    ensures Exact(n)
  {
    if RenameAttempted(m, fromDir, fromName, toDir, toName, disk) {
      var moved :| CleanMove(m, fromDir, fromName, toDir, toName, disk, moved, n, depth);
      MovesToExact(m, fromDir, fromName, toDir, toName, moved, depth);
      RefreshExact(moved, fromDir, disk.from, depth);
      if fromDir != toDir {
        RefreshExact(RefreshEntry(moved, fromDir, disk.from, depth).value.0, toDir, disk.to, depth);
      }
    }
  }

  lemma ReadDirExact(m: State, dir: FileId, probe: Probe, scan: Scan, depth: nat)
    requires Exact(m) && ReadDir(m, dir, probe, scan, depth).Some? && Finds(m, dir, probe)
    ensures Exact(ReadDir(m, dir, probe, scan, depth).value.0)
  {
    RefreshExact(m, dir, probe, depth);
    RelistKeeps(RefreshEntry(m, dir, probe, depth).value.0, dir, scan);
  }

  lemma CallExact(m: State, c: Call, n: State, depth: nat)
    requires Exact(m) && Performs(m, c, n, depth) && Clean(m, c, n, depth)
    ensures Exact(n)
  {
    match c
    case CallLookup(dir, name, disk) => LookupExact(m, dir, name, disk, depth);
    case CallRefresh(id, probe) => RefreshExact(m, id, probe, depth);
    case CallCreate(dir, name, disk) => CreateObjectExact(m, dir, name, disk, depth);
    case CallMakeNode(dir, name, disk) => MakeNodeExact(m, dir, name, disk);
    case CallLink(file, dir, name, disk, source) => LinkExact(m, file, dir, name, disk, source);
    case CallRemove(dir, name, disk) => RemoveExact(m, dir, name, disk, depth);
    case CallRename(fromDir, fromName, toDir, toName, disk) =>
      RenameExact(m, fromDir, fromName, toDir, toName, disk, n, depth);
    case CallSetMeta(id, meta) => SetMetaKeeps(m, id, ToAttr(id, meta));
    case CallReadDir(dir, probe, scan) => ReadDirExact(m, dir, probe, scan, depth);
  }

  // ---- whole runs --------------------------------------------------------

  ghost predicate CleanStep(m: State, c: Call, n: State) {
    exists depth :: Performs(m, c, n, depth) && Clean(m, c, n, depth)
  }

  ghost predicate CleanRun(states: seq<State>, calls: seq<Call>) {
    && |states| == |calls| + 1
    && forall i | 0 <= i < |calls| :: CleanStep(states[i], calls[i], states[i + 1])
  }

  lemma CleanIsRun(states: seq<State>, calls: seq<Call>)
    requires CleanRun(states, calls)
    ensures Run(states, calls)
  {
    forall i | 0 <= i < |calls| ensures Stepped(states[i], calls[i], states[i + 1]) {
      assert CleanStep(states[i], calls[i], states[i + 1]);
    }
  }

  /** From start-up on every state of a clean run is exact: every mapped path is
      listed by its id, and every listed alias is mapped to it. */
  lemma {:induction false} CleanRunExact(root: Meta, states: seq<State>, calls: seq<Call>, i: nat)
    requires CleanRun(states, calls) && states[0] == Initial(root) && i <= |calls|
    ensures Exact(states[i])
  {
    if i == 0 {
      InitialExact(root);
    } else {
      CleanRunExact(root, states, calls, i - 1);
      assert CleanStep(states[i - 1], calls[i - 1], states[i]);
      var depth :| Performs(states[i - 1], calls[i - 1], states[i], depth)
        && Clean(states[i - 1], calls[i - 1], states[i], depth);
      CallExact(states[i - 1], calls[i - 1], states[i], depth);
    }
  }
}
