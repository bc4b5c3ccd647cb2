/** The mirror file system's calls as transitions of the cache. Each call takes
    the disk answers it sees as a parameter, so nothing ties one answer to the
    next: the disk may change between any two of them. */
module MirrorFsCalls {
  import opened Wrappers
  import opened Ordered
  import opened FsMapState

  /** A cache after a call with the call's answer; None while a deletion has not
      returned within the given nesting depth. */
  type Outcome<T> = Option<(State, Result<T, Status>)>

  function AddChild(m: State, dir: FileId, name: Symbol, id: FileId): State {
    if dir in m.idToPath && m.idToPath[dir].children.Some?
    then
      var e := m.idToPath[dir];
      m.(idToPath := m.idToPath[dir := e.(children := Some(e.children.value[name := id]))])
    else m
  }

  function DropChild(m: State, dir: FileId, name: Symbol): State {
    if dir in m.idToPath && m.idToPath[dir].children.Some?
    then m.(idToPath := m.idToPath[dir := m.idToPath[dir].(children := Some(m.idToPath[dir].children.value - {name}))])
    else m
  }

  // ---- lookup ------------------------------------------------------------

  datatype LookupDisk = LookupDisk(child: Probe, exists_: bool, dir: Probe, scan: Scan)

  ghost function Lookup(m: State, dir: FileId, name: Symbol, disk: LookupDisk, depth: nat): Outcome<FileId> {
    var hit := FindChild(m, dir, name);
    if hit.Ok? && hit.value in m.idToPath then
      var (m1, r) :- RefreshEntry(m, hit.value, disk.child, depth);
      if r.Error? then Some((m1, Error(r.error)))
      else if r.value == Delete then LookupOnDisk(m1, dir, name, disk, depth)
      else Some((m1, if FindChild(m1, dir, name).Ok? then hit else Error(NoEnt)))
    else LookupOnDisk(m, dir, name, disk, depth)
  }

  ghost function LookupOnDisk(m: State, dir: FileId, name: Symbol, disk: LookupDisk, depth: nat): Outcome<FileId> {
    if dir !in m.idToPath || !disk.exists_ then Some((m, Error(NoEnt)))
    else
      var (m1, r) :- RefreshEntry(m, dir, disk.dir, depth);
      if r.Error? then Some((m1, Error(r.error)))
      else if r.value == Delete then Some((m1, Error(NoEnt)))
      else
        var (m2, listed) := RefreshDirList(m1, dir, disk.scan);
        Some((m2, if listed.Error? then Error(listed.error) else FindChild(m2, dir, name)))
  }

  // ---- create, mkdir, symlink --------------------------------------------

  /** `made` is the outcome of creating the object on disk. */
  datatype CreateDisk = CreateDisk(made: Result<(), Status>, dir: Probe, meta: Option<Meta>)

  ghost function CreateObject(m: State, dir: FileId, name: Symbol, disk: CreateDisk, depth: nat): Outcome<FileId> {
    if dir !in m.idToPath then Some((m, Error(NoEnt)))
    else if disk.made.Error? then Some((m, Error(disk.made.error)))
    else
      var (m1, r) :- RefreshEntry(m, dir, disk.dir, depth);
      if r.Error? then Some((m1, Error(r.error)))
      else if disk.meta.None? then Some((m1, Error(IO)))
      else Some(EnterChild(m1, dir, m.idToPath[dir].name + [name], name, disk.meta.value))
  }

  /** create_entry for a new child, then its directory's cached children. */
  ghost function EnterChild(m: State, dir: FileId, path: Path, name: Symbol, meta: Meta)
    : (State, Result<FileId, Status>)
  {
    var (m1, id) := CreateEntry(m, path, meta);
    if dir in m1.idToPath then (AddChild(m1, dir, name, id), Ok(id)) else (m1, Error(NoEnt))
  }

  // ---- mknod, link -------------------------------------------------------

  datatype NodeDisk = NodeDisk(made: Result<(), Status>, meta: Option<Meta>)

  ghost function MakeNode(m: State, dir: FileId, name: Symbol, disk: NodeDisk): (State, Result<FileId, Status>) {
    if dir !in m.idToPath then (m, Error(NoEnt))
    else if disk.made.Error? then (m, Error(disk.made.error))
    else if disk.meta.None? then (m, Error(IO))
    else EnterChild(m, dir, m.idToPath[dir].name + [name], name, disk.meta.value)
  }

  ghost function Link(m: State, file: FileId, dir: FileId, name: Symbol, disk: NodeDisk, source: Option<Meta>)
    : (State, Result<Attr, Status>)
  {
    if file !in m.idToPath then (m, Error(NoEnt))
    else
      var (m1, r) := MakeNode(m, dir, name, disk);
      if r.Error? then (m1, Error(r.error))
      else if source.None? then (m1, Error(IO))
      else (SetMeta(m1, file, ToAttr(file, source.value)), Ok(ToAttr(file, source.value)))
  }

  // ---- remove ------------------------------------------------------------

  datatype RemoveDisk = RemoveDisk(found: bool, removed: bool, dir: Probe)

  ghost function Remove(m: State, dir: FileId, name: Symbol, disk: RemoveDisk, depth: nat): Outcome<()> {
    if dir !in m.idToPath || !disk.found then Some((m, Error(NoEnt)))
    else if !disk.removed then Some((m, Error(IO)))
    else
      var m1 := DropChild(RemovePath(m, m.idToPath[dir].name + [name]), dir, name);
      var (m2, r) :- RefreshEntry(m1, dir, disk.dir, depth);
      Some((m2, Ok(())))
  }

  // ---- rename ------------------------------------------------------------

  /** `renamed` says whether the disk rename succeeded; `same` that both names are one inode already. */
  datatype RenameDisk =
    RenameDisk(toDirExists: bool, fromExists: bool, same: bool, renamed: bool, from: Probe, to: Probe)

  /** What rename clears at its target before moving paths. */
  ghost function ClearTarget(m: State, to: Path, depth: nat): Option<State> {
    if to !in m.pathToId then Some(m)
    else if m.pathToId[to] in m.idToPath && m.idToPath[m.pathToId[to]].IsDirectory()
    then RemoveTree(m, to, m.pathToId[to], depth)
    else Some(RemovePath(m, to))
  }

  /** The cached children of both directories after the move. */
  function MoveChild(m: State, fromDir: FileId, fromName: Symbol, toDir: FileId, toName: Symbol, to: Path): State {
    var dropped := DropChild(m, fromDir, fromName);
    if to in m.pathToId then AddChild(dropped, toDir, toName, m.pathToId[to]) else dropped
  }

  ghost predicate RenameAttempted(
    m: State, fromDir: FileId, fromName: Symbol, toDir: FileId, toName: Symbol, disk: RenameDisk)
  {
    && fromDir in m.idToPath && toDir in m.idToPath
    && disk.toDirExists && disk.fromExists && !disk.same && disk.renamed
    && m.idToPath[fromDir].name + [fromName] != m.idToPath[toDir].name + [toName]
  }

  function RenameRefusal(m: State, fromDir: FileId, fromName: Symbol, toDir: FileId, toName: Symbol, disk: RenameDisk)
    : Result<(), Status>
  {
    if fromDir !in m.idToPath || toDir !in m.idToPath || !disk.toDirExists || !disk.fromExists then Error(NoEnt)
    else if m.idToPath[fromDir].name + [fromName] == m.idToPath[toDir].name + [toName] || disk.same then Ok(())
    else Error(IO)
  }

  /** Renaming in the cache once the disk has done so, for one iteration order. */
  ghost predicate MovesTo(
    m: State, fromDir: FileId, fromName: Symbol, toDir: FileId, toName: Symbol, n: State, depth: nat)
    requires fromDir in m.idToPath && toDir in m.idToPath
  {
    var from := m.idToPath[fromDir].name + [fromName];
    var to := m.idToPath[toDir].name + [toName];
    if from !in m.pathToId then n == m
    else
      && ClearTarget(m, to, depth).Some?
      && var cleared := ClearTarget(m, to, depth).value;
      exists order :: IsListing(order, Below(cleared, from))
        && n == MoveChild(RenamePrefix(cleared, from, to, order), fromDir, fromName, toDir, toName, to)
  }

  ghost function RefreshBoth(m: State, fromDir: FileId, toDir: FileId, disk: RenameDisk, depth: nat): Option<State> {
    var (m1, r1) :- RefreshEntry(m, fromDir, disk.from, depth);
    if fromDir == toDir then Some(m1)
    else
      var (m2, r2) :- RefreshEntry(m1, toDir, disk.to, depth);
      Some(m2)
  }

  // ---- readdir -----------------------------------------------------------

  datatype DirEntry = DirEntry(fileid: FileId, name: DirName, attr: Attr)

  datatype DirName = Dot | DotDot | Child(symbol: Symbol)

  /** The full listing readdir pages through: itself, its parent, its children in order. */
  ghost function Listing(m: State, dir: FileId): Result<seq<DirEntry>, Status> {
    if dir !in m.idToPath then Error(NoEnt)
    else if !m.idToPath[dir].IsDirectory() then Error(NotDir)
    else if m.idToPath[dir].children.None? then Error(IO)
    else
      var e := m.idToPath[dir];
      if e.name != [] && e.name[..|e.name| - 1] !in m.pathToId then Error(IO)
      else
        var parent := if e.name == [] then dir else m.pathToId[e.name[..|e.name| - 1]];
        if parent !in m.idToPath then Error(NoEnt)
        else
          var self := DirEntry(dir, Dot, e.fsmeta.(fileid := dir));
          var up := DirEntry(parent, DotDot, m.idToPath[parent].fsmeta.(fileid := parent));
          ListChildren(m, e.children.value, Ascending(e.children.value.Keys), [self, up])
  }

  ghost function ListChildren(m: State, children: map<Symbol, FileId>, names: seq<Symbol>, listed: seq<DirEntry>)
    : Result<seq<DirEntry>, Status>
    requires forall s | s in names :: s in children
    decreases names
  {
    if names == [] then Ok(listed)
    else
      var id := children[names[0]];
      if id !in m.idToPath then Error(NoEnt)
      else
        var entry := DirEntry(id, Child(names[0]), m.idToPath[id].fsmeta.(fileid := id));
        ListChildren(m, children, names[1..], listed + [entry])
  }

  ghost function ReadDir(m: State, dir: FileId, probe: Probe, scan: Scan, depth: nat): Outcome<seq<DirEntry>> {
    var (m1, r) :- RefreshEntry(m, dir, probe, depth);
    if r.Error? then Some((m1, Error(r.error)))
    else
      var (m2, listed) := RefreshDirList(m1, dir, scan);
      Some((m2, if listed.Error? then Error(listed.error) else Listing(m2, dir)))
  }

  // ---- any call ----------------------------------------------------------

  datatype Call =
    | CallLookup(dir: FileId, name: Symbol, lookup: LookupDisk)
    | CallRefresh(id: FileId, probe: Probe)
    | CallCreate(dir: FileId, name: Symbol, create: CreateDisk)
    | CallMakeNode(dir: FileId, name: Symbol, node: NodeDisk)
    | CallLink(file: FileId, dir: FileId, name: Symbol, node: NodeDisk, source: Option<Meta>)
    | CallRemove(dir: FileId, name: Symbol, remove: RemoveDisk)
    | CallRename(fromDir: FileId, fromName: Symbol, toDir: FileId, toName: Symbol, rename: RenameDisk)
    | CallSetMeta(id: FileId, meta: Meta)
    | CallReadDir(dir: FileId, probe: Probe, scan: Scan)

  /** `n` is a cache that call `c` can leave behind, its deletions nesting at most `depth` deep. */
  ghost predicate Performs(m: State, c: Call, n: State, depth: nat) {
    match c
    case CallLookup(dir, name, disk) => var o := Lookup(m, dir, name, disk, depth); o.Some? && n == o.value.0
    case CallRefresh(id, probe) => var o := RefreshEntry(m, id, probe, depth); o.Some? && n == o.value.0
    case CallCreate(dir, name, disk) => var o := CreateObject(m, dir, name, disk, depth); o.Some? && n == o.value.0
    case CallMakeNode(dir, name, disk) => n == MakeNode(m, dir, name, disk).0
    case CallLink(file, dir, name, disk, source) => n == Link(m, file, dir, name, disk, source).0
    case CallRemove(dir, name, disk) => var o := Remove(m, dir, name, disk, depth); o.Some? && n == o.value.0
    case CallRename(fromDir, fromName, toDir, toName, disk) =>
      Renames(m, fromDir, fromName, toDir, toName, disk, n, depth)
    case CallSetMeta(id, meta) => n == SetMeta(m, id, ToAttr(id, meta))
    case CallReadDir(dir, probe, scan) => var o := ReadDir(m, dir, probe, scan, depth); o.Some? && n == o.value.0
  }

  ghost predicate Renames(
    m: State, fromDir: FileId, fromName: Symbol, toDir: FileId, toName: Symbol, disk: RenameDisk, n: State, depth: nat)
  {
    if !RenameAttempted(m, fromDir, fromName, toDir, toName, disk) then n == m
    else exists moved ::
      && MovesTo(m, fromDir, fromName, toDir, toName, moved, depth)
      && Some(n) == RefreshBoth(moved, fromDir, toDir, disk, depth)
  }

  /** A run: the caches between calls, each step one call. */
  ghost predicate Run(states: seq<State>, calls: seq<Call>) {
    && |states| == |calls| + 1
    && forall i | 0 <= i < |calls| :: Stepped(states[i], calls[i], states[i + 1])
  }

  ghost predicate Stepped(m: State, c: Call, n: State) {
    exists depth :: Performs(m, c, n, depth)
  }
}
