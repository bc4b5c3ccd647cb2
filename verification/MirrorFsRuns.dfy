/** Safety of the mirror file system's cache over whole runs of calls. */
module MirrorFsRuns {
  import opened Wrappers
  import opened Ordered
  import opened FsMapState
  import opened FsMapInvariant
  import opened FsMapTree
  import opened FsMapRename
  import opened FsMapRefresh
  import opened MirrorFsCalls

  // ---- each call keeps the invariant -------------------------------------

  ghost predicate Keeps(m: State, n: State) {
    Inv(n) && Stable(m, n)
  }

  lemma KeepsTransitive(a: State, b: State, c: State)
    requires Keeps(a, b) && Keeps(b, c)
    ensures Keeps(a, c)
  {
    StableTransitive(a, b, c);
  }

  lemma SameListsKeep(m: State, n: State)
    requires Inv(m) && n == m.(idToPath := n.idToPath) && n.idToPath.Keys == m.idToPath.Keys
    requires forall id | id in m.idToPath ::
      n.idToPath[id].name == m.idToPath[id].name && n.idToPath[id].aliases == m.idToPath[id].aliases
    ensures Keeps(m, n)
  {
    assert forall i, p :: Lists(n, i, p) <==> Lists(m, i, p);
  }

  lemma AddChildKeeps(m: State, dir: FileId, name: Symbol, id: FileId)
    requires Inv(m)
    ensures Keeps(m, AddChild(m, dir, name, id))
  {
    SameListsKeep(m, AddChild(m, dir, name, id));
  }

  lemma EnterChildKeeps(m: State, dir: FileId, path: Path, name: Symbol, meta: Meta)
    requires Inv(m)
    ensures Keeps(m, EnterChild(m, dir, path, name, meta).0)
  {
    CreateEntryKeeps(m, path, meta);
    var (m1, id) := CreateEntry(m, path, meta);
    AddChildKeeps(m1, dir, name, id);
    KeepsTransitive(m, m1, AddChild(m1, dir, name, id));
  }

  lemma LookupOnDiskKeeps(m: State, dir: FileId, name: Symbol, disk: LookupDisk, depth: nat)
    requires Inv(m) && LookupOnDisk(m, dir, name, disk, depth).Some?
    ensures Keeps(m, LookupOnDisk(m, dir, name, disk, depth).value.0)
  {
    if dir in m.idToPath && disk.exists_ {
      RefreshKeeps(m, dir, disk.dir, depth);
      var m1 := RefreshEntry(m, dir, disk.dir, depth).value.0;
      RelistKeeps(m1, dir, disk.scan);
      KeepsTransitive(m, m1, RefreshDirList(m1, dir, disk.scan).0);
    }
  }

  lemma LookupKeeps(m: State, dir: FileId, name: Symbol, disk: LookupDisk, depth: nat)
    requires Inv(m) && Lookup(m, dir, name, disk, depth).Some?
    ensures Keeps(m, Lookup(m, dir, name, disk, depth).value.0)
  {
    var hit := FindChild(m, dir, name);
    if hit.Ok? && hit.value in m.idToPath {
      RefreshKeeps(m, hit.value, disk.child, depth);
      var (m1, r) := RefreshEntry(m, hit.value, disk.child, depth).value;
      if r == Ok(Delete) {
        LookupOnDiskKeeps(m1, dir, name, disk, depth);
        KeepsTransitive(m, m1, LookupOnDisk(m1, dir, name, disk, depth).value.0);
      }
    } else {
      LookupOnDiskKeeps(m, dir, name, disk, depth);
    }
  }

  lemma CreateObjectKeeps(m: State, dir: FileId, name: Symbol, disk: CreateDisk, depth: nat)
    requires Inv(m) && CreateObject(m, dir, name, disk, depth).Some?
    ensures Keeps(m, CreateObject(m, dir, name, disk, depth).value.0)
  {
    if dir in m.idToPath && disk.made.Ok? {
      RefreshKeeps(m, dir, disk.dir, depth);
      var (m1, r) := RefreshEntry(m, dir, disk.dir, depth).value;
      if r.Ok? && disk.meta.Some? {
        var path := m.idToPath[dir].name + [name];
        EnterChildKeeps(m1, dir, path, name, disk.meta.value);
        KeepsTransitive(m, m1, EnterChild(m1, dir, path, name, disk.meta.value).0);
      }
    }
  }

  lemma MakeNodeKeeps(m: State, dir: FileId, name: Symbol, disk: NodeDisk)
    requires Inv(m)
    ensures Keeps(m, MakeNode(m, dir, name, disk).0)
  {
    if dir in m.idToPath && disk.meta.Some? {
      EnterChildKeeps(m, dir, m.idToPath[dir].name + [name], name, disk.meta.value);
    }
  }

  lemma LinkKeepsAll(m: State, file: FileId, dir: FileId, name: Symbol, disk: NodeDisk, source: Option<Meta>)
    requires Inv(m)
    ensures Keeps(m, Link(m, file, dir, name, disk, source).0)
  {
    MakeNodeKeeps(m, dir, name, disk);
    if source.Some? {
      var m1 := MakeNode(m, dir, name, disk).0;
      SetMetaKeeps(m1, file, ToAttr(file, source.value));
      KeepsTransitive(m, m1, SetMeta(m1, file, ToAttr(file, source.value)));
    }
  }

  lemma RemoveKeeps(m: State, dir: FileId, name: Symbol, disk: RemoveDisk, depth: nat)
    requires Inv(m) && Remove(m, dir, name, disk, depth).Some?
    ensures Keeps(m, Remove(m, dir, name, disk, depth).value.0)
  {
    if dir in m.idToPath && disk.found && disk.removed {
      var path := m.idToPath[dir].name + [name];
      RemovePathKeeps(m, path);
      var removed := RemovePath(m, path);
      var m1 := DropChild(removed, dir, name);
      SameListsKeep(removed, m1);
      KeepsTransitive(m, removed, m1);
      RefreshKeeps(m1, dir, disk.dir, depth);
      KeepsTransitive(m, m1, RefreshEntry(m1, dir, disk.dir, depth).value.0);
    }
  }

  lemma ClearTargetKeeps(m: State, to: Path, depth: nat)
    requires Inv(m) && ClearTarget(m, to, depth).Some?
    ensures Removal(m, ClearTarget(m, to, depth).value, to)
    ensures to !in ClearTarget(m, to, depth).value.pathToId
  {
    if to in m.pathToId {
      var id := m.pathToId[to];
      RemovePathPrunes(m, to);
      RemovePathUnmaps(m, to);
      if id in m.idToPath && m.idToPath[id].IsDirectory() {
        TreeRemoval(m, to, id, depth);
      }
    }
  }

  lemma MoveChildKeeps(m: State, fromDir: FileId, fromName: Symbol, toDir: FileId, toName: Symbol, to: Path)
    requires Inv(m)
    ensures Keeps(m, MoveChild(m, fromDir, fromName, toDir, toName, to))
  {
    SameListsKeep(m, DropChild(m, fromDir, fromName));
    SameListsKeep(m, MoveChild(m, fromDir, fromName, toDir, toName, to));
  }

  lemma MovesToKeeps(m: State, fromDir: FileId, fromName: Symbol, toDir: FileId, toName: Symbol, n: State, depth: nat)
    requires Inv(m) && fromDir in m.idToPath && toDir in m.idToPath
    requires MovesTo(m, fromDir, fromName, toDir, toName, n, depth)
    ensures Keeps(m, n)
  {
    var from := m.idToPath[fromDir].name + [fromName];
    var to := m.idToPath[toDir].name + [toName];
    if from in m.pathToId {
      ClearTargetKeeps(m, to, depth);
      var cleared := ClearTarget(m, to, depth).value;
      var order :| IsListing(order, Below(cleared, from))
        && n == MoveChild(RenamePrefix(cleared, from, to, order), fromDir, fromName, toDir, toName, to);
      RenameKeeps(cleared, from, to, order);
      var renamed := RenamePrefix(cleared, from, to, order);
      KeepsTransitive(m, cleared, renamed);
      MoveChildKeeps(renamed, fromDir, fromName, toDir, toName, to);
      KeepsTransitive(m, renamed, n);
    }
  }

  lemma RefreshBothKeeps(m: State, fromDir: FileId, toDir: FileId, disk: RenameDisk, depth: nat)
    requires Inv(m) && RefreshBoth(m, fromDir, toDir, disk, depth).Some?
    ensures Keeps(m, RefreshBoth(m, fromDir, toDir, disk, depth).value)
  {
    RefreshKeeps(m, fromDir, disk.from, depth);
    var m1 := RefreshEntry(m, fromDir, disk.from, depth).value.0;
    if fromDir != toDir {
      RefreshKeeps(m1, toDir, disk.to, depth);
      KeepsTransitive(m, m1, RefreshEntry(m1, toDir, disk.to, depth).value.0);
    }
  }

  lemma RenamesKeeps(
    m: State, fromDir: FileId, fromName: Symbol, toDir: FileId, toName: Symbol, disk: RenameDisk, n: State, depth: nat)
    requires Inv(m) && Renames(m, fromDir, fromName, toDir, toName, disk, n, depth)
    ensures Keeps(m, n)
  {
    if RenameAttempted(m, fromDir, fromName, toDir, toName, disk) {
      var moved :| MovesTo(m, fromDir, fromName, toDir, toName, moved, depth)
        && Some(n) == RefreshBoth(moved, fromDir, toDir, disk, depth);
      MovesToKeeps(m, fromDir, fromName, toDir, toName, moved, depth);
      RefreshBothKeeps(moved, fromDir, toDir, disk, depth);
      KeepsTransitive(m, moved, n);
    }
  }

  lemma ReadDirKeeps(m: State, dir: FileId, probe: Probe, scan: Scan, depth: nat)
    requires Inv(m) && ReadDir(m, dir, probe, scan, depth).Some?
    ensures Keeps(m, ReadDir(m, dir, probe, scan, depth).value.0)
  {
    RefreshKeeps(m, dir, probe, depth);
    var m1 := RefreshEntry(m, dir, probe, depth).value.0;
    RelistKeeps(m1, dir, scan);
    KeepsTransitive(m, m1, RefreshDirList(m1, dir, scan).0);
  }

  /** Every call that returns keeps the index invariant and every id's inode. */
  lemma CallKeeps(m: State, c: Call, n: State, depth: nat)
    requires Inv(m) && Performs(m, c, n, depth)
    ensures Inv(n) && Stable(m, n)
  {
    match c
    case CallLookup(dir, name, disk) => LookupKeeps(m, dir, name, disk, depth);
    case CallRefresh(id, probe) => RefreshKeeps(m, id, probe, depth);
    case CallCreate(dir, name, disk) => CreateObjectKeeps(m, dir, name, disk, depth);
    case CallMakeNode(dir, name, disk) => MakeNodeKeeps(m, dir, name, disk);
    case CallLink(file, dir, name, disk, source) => LinkKeepsAll(m, file, dir, name, disk, source);
    case CallRemove(dir, name, disk) => RemoveKeeps(m, dir, name, disk, depth);
    case CallRename(fromDir, fromName, toDir, toName, disk) =>
      RenamesKeeps(m, fromDir, fromName, toDir, toName, disk, n, depth);
    case CallSetMeta(id, meta) => SetMetaKeeps(m, id, ToAttr(id, meta));
    case CallReadDir(dir, probe, scan) => ReadDirKeeps(m, dir, probe, scan, depth);
  }

  // ---- whole runs --------------------------------------------------------

  lemma {:induction false} RunKeepsFrom(states: seq<State>, calls: seq<Call>, i: nat, j: nat)
    requires Run(states, calls) && Inv(states[0]) && i <= j <= |calls|
    ensures Inv(states[i]) && Inv(states[j]) && Stable(states[i], states[j])
    decreases j
  {
    if j > 0 {
      RunKeepsFrom(states, calls, if i < j then i else j - 1, j - 1);
      assert Stepped(states[j - 1], calls[j - 1], states[j]);
      var depth :| Performs(states[j - 1], calls[j - 1], states[j], depth);
      CallKeeps(states[j - 1], calls[j - 1], states[j], depth);
      if i < j {
        StableTransitive(states[i], states[j - 1], states[j]);
      }
    }
  }

  /** From start-up on, after any calls with any disk answers: every mapped path
      names a live id that lists it, and ids and inodes are inverse to each other. */
  lemma RunKeepsInvariant(root: Meta, states: seq<State>, calls: seq<Call>)
    requires Run(states, calls) && states[0] == Initial(root)
    ensures forall i | 0 <= i < |states| :: Inv(states[i])
  {
    InitialExact(root);
    forall i | 0 <= i < |states| ensures Inv(states[i]) {
      RunKeepsFrom(states, calls, i, i);
    }
  }

  /** An id never changes its inode, and once dropped it is never issued again. */
  lemma RunKeepsIds(root: Meta, states: seq<State>, calls: seq<Call>, i: nat, j: nat, id: FileId)
    requires Run(states, calls) && states[0] == Initial(root) && i <= j <= |calls|
    ensures id in states[i].idToInode && id in states[j].idToInode ==>
      states[i].idToInode[id] == states[j].idToInode[id]
    ensures id < states[i].nextFileid && id !in states[i].idToPath ==> id !in states[j].idToPath
    ensures id in states[j].idToPath && id !in states[i].idToPath ==> states[i].nextFileid <= id
  {
    InitialExact(root);
    RunKeepsFrom(states, calls, i, j);
  }

  /** However far apart, two create_entry calls give the same id exactly when
      their inodes agree, as long as the first id is still live: hard links share it. */
  lemma SameIdIffSameInode(
    m: State, path1: Path, meta1: Meta, states: seq<State>, calls: seq<Call>, path2: Path, meta2: Meta)
    requires Inv(m) && Run(states, calls) && states[0] == CreateEntry(m, path1, meta1).0
    ensures var id1 := CreateEntry(m, path1, meta1).1; var (n, id2) := CreateEntry(states[|calls|], path2, meta2);
      id1 in n.idToPath ==> (id1 == id2 <==> meta1.inode == meta2.inode)
  {
    var last := states[|calls|];
    var n := CreateEntry(last, path2, meta2).0;
    CreateEntryKeeps(m, path1, meta1);
    CreateEntryBinds(m, path1, meta1);
    RunKeepsFrom(states, calls, 0, |calls|);
    CreateEntryKeeps(last, path2, meta2);
    CreateEntryBinds(last, path2, meta2);
    StableTransitive(states[0], last, n);
  }
}
