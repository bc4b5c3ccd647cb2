/** The path/id/inode cache of the mirror file system as a value, and what each
    of its operations does to that value. Disk answers are parameters. */
module FsMapState {
  import opened Wrappers
  import opened Ordered

  type FileId = nat

  datatype Status = NoEnt | IO | Exist | Acces | NotDir | BadCookie

  datatype InodeKey = InodeKey(dev: nat, ino: nat)

  datatype FileType = Regular | Directory | Symlink

  /** What `symlink_metadata` reports; `rest` stands for the attributes no branch looks at. */
  datatype Meta = Meta(
    inode: InodeKey, ftype: FileType, size: nat, nlink: nat, mtime: nat, ctime: nat, rest: nat)

  datatype Attr = Attr(
    fileid: FileId, ftype: FileType, size: nat, nlink: nat, mtime: nat, ctime: nat, rest: nat)

  function ToAttr(id: FileId, meta: Meta): Attr {
    Attr(id, meta.ftype, meta.size, meta.nlink, meta.mtime, meta.ctime, meta.rest)
  }

  /** Attributes differ in a field the cache cares about. */
  predicate Differ(a: Attr, b: Attr) {
    a.(rest := 0) != b.(rest := 0)
  }

  datatype FSEntry = FSEntry(
    name: Path,
    aliases: set<Path>,
    fsmeta: Attr,
    childrenMeta: Attr,
    children: Option<map<Symbol, FileId>>)
  {
    predicate IsDirectory() {
      fsmeta.ftype == Directory
    }
  }

  function NewEntry(name: Path, fsmeta: Attr): FSEntry {
    FSEntry(name, {name}, fsmeta, fsmeta, None)
  }

  datatype State = State(
    idToPath: map<FileId, FSEntry>,
    pathToId: map<Path, FileId>,
    inodeToId: map<InodeKey, FileId>,
    idToInode: map<FileId, InodeKey>,
    nextFileid: FileId)

  /** The state after start-up: the root is id 0 at the empty path. */
  function Initial(root: Meta): State {
    State(
      map[0 := NewEntry([], ToAttr(1, root))], map[[] := 0],
      map[root.inode := 0], map[0 := root.inode], 1)
  }

  // ---- remove_path -------------------------------------------------------

  ghost function RemovePath(m: State, path: Path): State {
    if path !in m.pathToId then m
    else
      var id := m.pathToId[path];
      var unmapped := m.(pathToId := m.pathToId - {path});
      if id !in m.idToPath then unmapped
      else
        var e := m.idToPath[id];
        var aliases := e.aliases - {path};
        if aliases == {} then
          unmapped.(
            idToPath := m.idToPath - {id},
            idToInode := m.idToInode - {id},
            inodeToId := if id in m.idToInode then m.inodeToId - {m.idToInode[id]} else m.inodeToId)
        else
          var name := if e.name == path then Least(aliases) else e.name;
          unmapped.(idToPath := m.idToPath[id := e.(aliases := aliases, name := name)])
  }

  // ---- remove_path_tree, delete_entry ------------------------------------

  /** The recursion of remove_path_tree, cut off at `depth` nested directories:
      None when it has not returned by then. */
  ghost function RemoveTree(m: State, path: Path, id: FileId, depth: nat): Option<State>
    decreases depth, 0, 0
  {
    if id !in m.idToPath then Some(m)
    else if depth == 0 then None
    else
      var e := m.idToPath[id];
      var pruned :-
        if e.IsDirectory() && e.children.Some?
        then RemoveChildren(m, path, e.children.value, Ascending(e.children.value.Keys), depth - 1)
        else Some(m);
      Some(RemovePath(pruned, path))
  }

  ghost function RemoveChildren(
    m: State, path: Path, children: map<Symbol, FileId>, names: seq<Symbol>, depth: nat): Option<State>
    requires forall s | s in names :: s in children
    decreases depth, |names|
  {
    if names == [] then Some(m)
    else
      var next :- RemoveChild(m, path + [names[0]], children[names[0]], depth);
      RemoveChildren(next, path, children, names[1..], depth)
  }

  ghost function RemoveChild(m: State, path: Path, id: FileId, depth: nat): Option<State>
    decreases depth, 0, 1
  {
    if id in m.idToPath && m.idToPath[id].IsDirectory() then RemoveTree(m, path, id, depth)
    else Some(RemovePath(m, path))
  }

  ghost function DeleteEntry(m: State, id: FileId, depth: nat): Option<State> {
    if id in m.idToPath then RemoveTree(m, m.idToPath[id].name, id, depth) else Some(m)
  }

  // ---- rename_path_prefix ------------------------------------------------

  datatype Move = Move(source: Path, target: Path, id: FileId)

  /** `path` with the prefix `from` exchanged for `to`. */
  function Rebase(path: Path, from: Path, to: Path): Path
    requires from <= path
  {
    to + path[|from|..]
  }

  ghost function Below(m: State, prefix: Path): set<Path> {
    set p | p in m.pathToId && prefix <= p
  }

  ghost predicate IsListing<T(!new)>(order: seq<T>, s: set<T>) {
    && (forall i, j | 0 <= i < j < |order| :: order[i] != order[j])
    && (forall x :: x in order <==> x in s)
  }

  ghost function MovesFor(m: State, from: Path, to: Path, order: seq<Path>): (moves: seq<Move>)
    requires forall i | 0 <= i < |order| :: order[i] in m.pathToId && from <= order[i]
    ensures |moves| == |order|
    ensures forall i | 0 <= i < |order| ::
      moves[i] == Move(order[i], Rebase(order[i], from, to), m.pathToId[order[i]])
  {
    if order == [] then []
    else [Move(order[0], Rebase(order[0], from, to), m.pathToId[order[0]])] + MovesFor(m, from, to, order[1..])
  }

  function MoveOne(m: State, u: Move): State {
    var mapped := m.(pathToId := (m.pathToId - {u.source})[u.target := u.id]);
    if u.id !in m.idToPath then mapped
    else
      var e := m.idToPath[u.id];
      mapped.(idToPath := m.idToPath[u.id := e.(
        aliases := if u.source in e.aliases then e.aliases - {u.source} + {u.target} else e.aliases,
        name := if e.name == u.source then u.target else e.name)])
  }

  function MoveAll(m: State, moves: seq<Move>): State
    decreases moves
  {
    if moves == [] then m else MoveAll(MoveOne(m, moves[0]), moves[1..])
  }

  /** One outcome of rename_path_prefix per order in which the hash map yields the paths below `from`. */
  ghost function RenamePrefix(m: State, from: Path, to: Path, order: seq<Path>): State
    requires IsListing(order, Below(m, from))
  {
    assert forall i | 0 <= i < |order| :: order[i] in order && order[i] in Below(m, from);
    if from == to then m else MoveAll(m, MovesFor(m, from, to, order))
  }

  // ---- create_entry ------------------------------------------------------

  /** The first half of create_entry: a path reused for another inode is detached. */
  ghost function Detach(m: State, path: Path, inode: InodeKey): State {
    if path in m.pathToId
      && !(m.pathToId[path] in m.idToInode && m.idToInode[m.pathToId[path]] == inode)
    then RemovePath(m, path)
    else m
  }

  function SetMeta(m: State, id: FileId, fsmeta: Attr): State {
    if id in m.idToPath then m.(idToPath := m.idToPath[id := m.idToPath[id].(fsmeta := fsmeta)]) else m
  }

  function AddAlias(m: State, id: FileId, path: Path): State {
    if id in m.idToPath
    then m.(idToPath := m.idToPath[id := m.idToPath[id].(aliases := m.idToPath[id].aliases + {path})])
    else m
  }

  /** The second half: `path` names an inode the cache may or may not know. */
  function Attach(m: State, path: Path, meta: Meta): (State, FileId) {
    if meta.inode in m.inodeToId then
      var id := m.inodeToId[meta.inode];
      var m1 := AddAlias(SetMeta(m, id, ToAttr(id, meta)), id, path);
      (m1.(pathToId := m1.pathToId[path := id],
           idToInode := if id in m1.idToInode then m1.idToInode else m1.idToInode[id := meta.inode]),
       id)
    else
      var id := m.nextFileid;
      (State(m.idToPath[id := NewEntry(path, ToAttr(id, meta))], m.pathToId[path := id],
             m.inodeToId[meta.inode := id], m.idToInode[id := meta.inode], id + 1),
       id)
  }

  ghost function CreateEntry(m: State, path: Path, meta: Meta): (State, FileId) {
    var d := Detach(m, path, meta.inode);
    if path in d.pathToId then (SetMeta(d, d.pathToId[path], ToAttr(d.pathToId[path], meta)), d.pathToId[path])
    else Attach(d, path, meta)
  }

  // ---- find_child --------------------------------------------------------

  function FindChild(m: State, dir: FileId, name: Symbol): Result<FileId, Status> {
    if dir in m.idToPath && m.idToPath[dir].name + [name] in m.pathToId
    then Ok(m.pathToId[m.idToPath[dir].name + [name]])
    else Error(NoEnt)
  }

  // ---- refresh_entry -----------------------------------------------------

  datatype Refresh = Delete | Reload | Noop

  /** Disk answers seen by one refresh: which paths exist, then the metadata of the primary path. */
  datatype Probe = Probe(present: set<Path>, meta: Option<Meta>)

  /** Aliases missing from the disk are unmapped; the rest are kept and the least becomes primary. */
  ghost function KeepPresent(m: State, id: FileId, present: set<Path>): State
    requires id in m.idToPath
  {
    var e := m.idToPath[id];
    var kept := e.aliases * present;
    var unmapped := m.(pathToId := m.pathToId - (e.aliases - present));
    if kept == {} then unmapped
    else unmapped.(idToPath := m.idToPath[id := e.(aliases := kept, name := Least(kept))])
  }

  ghost function RefreshEntry(m: State, id: FileId, probe: Probe, depth: nat)
    : Option<(State, Result<Refresh, Status>)>
  {
    if id !in m.idToPath then Some((m, Error(NoEnt)))
    else
      var e := m.idToPath[id];
      var kept := KeepPresent(m, id, probe.present);
      if e.aliases * probe.present == {} then Deleted(DeleteEntry(kept, id, depth))
      else if probe.meta.None? then Some((kept, Error(IO)))
      else
        var meta := probe.meta.value;
        if !(id in kept.idToInode && kept.idToInode[id] == meta.inode) then Deleted(DeleteEntry(kept, id, depth))
        else
          var keyed := kept.(
            idToInode := kept.idToInode[id := meta.inode], inodeToId := kept.inodeToId[meta.inode := id]);
          var attr := ToAttr(id, meta);
          if !Differ(attr, e.fsmeta) then Some((keyed, Ok(Noop)))
          else if e.fsmeta.ftype != attr.ftype then Deleted(DeleteEntry(keyed, id, depth))
          else Some((SetMeta(keyed, id, attr), Ok(Reload)))
  }

  function Deleted(m: Option<State>): Option<(State, Result<Refresh, Status>)> {
    if m.None? then None else Some((m.value, Ok(Delete)))
  }

  // ---- refresh_dir_list --------------------------------------------------

  /** One directory entry: its name, and its metadata unless the stat failed. */
  datatype Listed = Listed(name: Symbol, meta: Option<Meta>)

  /** Disk answers seen by one relisting; `fault` is an error that ends the scan early. */
  datatype Scan = Unreadable(status: Status) | Opened(items: seq<Listed>, fault: Option<Status>)

  ghost function ScanItems(m: State, dir: Path, items: seq<Listed>, found: map<Symbol, FileId>)
    : (State, Result<map<Symbol, FileId>, Status>)
    decreases items
  {
    if items == [] then (m, Ok(found))
    else if items[0].meta.None? then (m, Error(IO))
    else
      var (m1, id) := CreateEntry(m, dir + [items[0].name], items[0].meta.value);
      ScanItems(m1, dir, items[1..], found[items[0].name := id])
  }

  ghost function DropAbsent(m: State, dir: Path, names: seq<Symbol>, found: map<Symbol, FileId>): State
    decreases names
  {
    if names == [] then m
    else
      DropAbsent(if names[0] in found then m else RemovePath(m, dir + [names[0]]), dir, names[1..], found)
  }

  function RecordChildren(m: State, id: FileId, found: map<Symbol, FileId>): State {
    if id in m.idToPath
    then
      var e := m.idToPath[id];
      m.(idToPath := m.idToPath[id := e.(children := Some(found), childrenMeta := e.fsmeta)])
    else m
  }

  function KnownChildren(e: FSEntry): set<Symbol> {
    if e.children.Some? then e.children.value.Keys else {}
  }

  ghost function RefreshDirList(m: State, id: FileId, scan: Scan): (State, Result<(), Status>) {
    if id !in m.idToPath then (m, Error(NoEnt))
    else if !m.idToPath[id].IsDirectory() then (m, Ok(()))
    else if scan.Unreadable? then (m, Error(scan.status))
    else
      var e := m.idToPath[id];
      var (scanned, r) := ScanItems(m, e.name, scan.items, map[]);
      if r.Error? then (scanned, Error(r.error))
      else if scan.fault.Some? then (scanned, Error(scan.fault.value))
      else
        var dropped := DropAbsent(scanned, e.name, Ascending(KnownChildren(e)), r.value);
        (RecordChildren(dropped, id, r.value), Ok(()))
  }
}
