/** The steps of one READDIR call over directories, one equation each: a refresh, a
    scanned entry, the recording of the children. */
module MirrorFsListing {
  import opened Wrappers
  import opened Ordered
  import opened FsMapState
  import opened FsMapRefresh
  import opened MirrorFsCalls

  /** A directory on disk, with inode number `ino`. */
  function Folder(ino: nat): Meta {
    Meta(InodeKey(0, ino), Directory, 0, 2, 0, 0, 0)
  }

  /** Its entry in the cache as id `ino`. */
  function Node(ino: nat, name: Path, aliases: set<Path>, children: Option<map<Symbol, FileId>>): FSEntry {
    FSEntry(name, aliases, ToAttr(ino, Folder(ino)), ToAttr(ino, Folder(ino)), children)
  }

  function Found(name: Symbol, ino: nat): Listed {
    Listed(name, Some(Folder(ino)))
  }

  /** A refresh that finds the same inode keeps the aliases that exist. */
  lemma Refreshed(m: State, id: FileId, kept: set<Path>, primary: Path, ino: nat, depth: nat)
    requires id in m.idToPath && m.idToPath[id].aliases * kept == kept != {}
    requires IsLeast(primary, kept)
    requires id in m.idToInode && m.idToInode[id] == InodeKey(0, ino) && m.idToInode[id] in m.inodeToId
    requires m.inodeToId[InodeKey(0, ino)] == id
    requires m.idToPath[id].fsmeta.ftype == Directory && m.idToPath[id].fsmeta.rest == 0
    ensures var e := m.idToPath[id]; var o := RefreshEntry(m, id, Probe(kept, Some(Folder(ino))), depth);
      && o.Some? && o.value.1.Ok?
      && o.value.0 == m.(
        pathToId := m.pathToId - (e.aliases - kept),
        idToPath := m.idToPath[id := e.(aliases := kept, name := primary, fsmeta := ToAttr(id, Folder(ino)))])
  {
    LeastUnique(primary, Least(kept), kept);
    assert m.idToInode[id := InodeKey(0, ino)] == m.idToInode && m.inodeToId[InodeKey(0, ino) := id] == m.inodeToId;
  }

  /** A refresh that finds everything as cached changes nothing. */
  lemma Confirmed(m: State, id: FileId, ino: nat)
    requires id in m.idToPath && IsLeast(m.idToPath[id].name, m.idToPath[id].aliases)
    requires m.idToPath[id].fsmeta == ToAttr(id, Folder(ino))
    requires id in m.idToInode && m.idToInode[id] == InodeKey(0, ino) && m.idToInode[id] in m.inodeToId
    requires m.inodeToId[InodeKey(0, ino)] == id
    ensures var o := RefreshEntry(m, id, Probe(m.idToPath[id].aliases, Some(Folder(ino))), 0);
      o.Some? && o.value.1.Ok? && o.value.0 == m
  {
    var e := m.idToPath[id];
    assert e.aliases * e.aliases == e.aliases && e.aliases - e.aliases == {};
    Refreshed(m, id, e.aliases, e.name, ino, 0);
    assert m.pathToId - {} == m.pathToId && m.idToPath[id := e] == m.idToPath;
  }

  lemma Enters(m: State, path: Path, ino: nat)
    requires path !in m.pathToId && InodeKey(0, ino) !in m.inodeToId
    ensures CreateEntry(m, path, Folder(ino)) == (
      State(m.idToPath[m.nextFileid := NewEntry(path, ToAttr(m.nextFileid, Folder(ino)))],
            m.pathToId[path := m.nextFileid], m.inodeToId[InodeKey(0, ino) := m.nextFileid],
            m.idToInode[m.nextFileid := InodeKey(0, ino)], m.nextFileid + 1), m.nextFileid)
  {
  }

  lemma Links(m: State, path: Path, ino: nat)
    requires path !in m.pathToId && InodeKey(0, ino) in m.inodeToId && m.inodeToId[InodeKey(0, ino)] == ino
    requires ino in m.idToInode && ino in m.idToPath && m.idToPath[ino].fsmeta == ToAttr(ino, Folder(ino))
    ensures CreateEntry(m, path, Folder(ino)) == (
      m.(idToPath := m.idToPath[ino := m.idToPath[ino].(aliases := m.idToPath[ino].aliases + {path})],
         pathToId := m.pathToId[path := ino]), ino)
  {
    assert m.idToPath[ino := m.idToPath[ino].(fsmeta := ToAttr(ino, Folder(ino)))] == m.idToPath;
    assert SetMeta(m, ino, ToAttr(ino, Folder(ino))) == m;
  }

  lemma Stays(m: State, path: Path, ino: nat)
    requires path in m.pathToId && m.pathToId[path] == ino && ino in m.idToInode && m.idToInode[ino] == InodeKey(0, ino)
    requires ino in m.idToPath && m.idToPath[ino].fsmeta == ToAttr(ino, Folder(ino))
    ensures CreateEntry(m, path, Folder(ino)) == (m, ino)
  {
    assert SetMeta(m, ino, ToAttr(ino, Folder(ino))) == m;
  }

  /** A scan that misses no cached child is recorded as it is. */
  lemma Relists(m: State, id: FileId, items: seq<Listed>, scanned: State, found: map<Symbol, FileId>)
    requires id in m.idToPath && m.idToPath[id].IsDirectory() && KnownChildren(m.idToPath[id]) <= found.Keys
    requires ScanItems(m, m.idToPath[id].name, items, map[]) == (scanned, Ok(found))
    ensures RefreshDirList(m, id, Opened(items, None)) == (RecordChildren(scanned, id, found), Ok(()))
  {
    DropsNone(scanned, m.idToPath[id].name, Ascending(KnownChildren(m.idToPath[id])), found);
  }

  lemma ScansOne(m: State, dir: Path, item: Listed, found: map<Symbol, FileId>)
    requires item.meta.Some?
    ensures var (n, id) := CreateEntry(m, dir + [item.name], item.meta.value);
      ScanItems(m, dir, [item], found) == (n, Ok(found[item.name := id]))
  {
    assert [item][1..] == [];
  }

  lemma ScansTwo(m: State, dir: Path, one: Listed, two: Listed)
    requires one.meta.Some? && two.meta.Some?
    ensures var (n, i) := CreateEntry(m, dir + [one.name], one.meta.value);
      ScanItems(m, dir, [one, two], map[]) == ScanItems(n, dir, [two], map[one.name := i])
  {
    assert [one, two][1..] == [two];
  }

  /** A listing that refreshes to `m1` and then scans to `scanned`. */
  lemma ListingCall(
    m: State, id: FileId, present: set<Path>, ino: nat, items: seq<Listed>, m1: State, scanned: State,
    found: map<Symbol, FileId>)
    requires var o := RefreshEntry(m, id, Probe(present, Some(Folder(ino))), 0);
      o.Some? && o.value.1.Ok? && o.value.0 == m1
    requires id in m1.idToPath && m1.idToPath[id].IsDirectory() && KnownChildren(m1.idToPath[id]) <= found.Keys
    requires ScanItems(m1, m1.idToPath[id].name, items, map[]) == (scanned, Ok(found))
    ensures Performs(
      m, CallReadDir(id, Probe(present, Some(Folder(ino))), Opened(items, None)), RecordChildren(scanned, id, found), 0)
  {
    Relists(m1, id, items, scanned, found);
  }
}
