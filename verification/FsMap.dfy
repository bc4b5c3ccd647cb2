/** The cache as an object: its methods update the maps in place and refine the
    operations of FsMapState. Disk answers come in as parameters; `depth` bounds
    the directory nesting of one remove_path_tree recursion. */
module FsMap {
  import opened Wrappers
  import opened Ordered
  import opened FsMapState
  import FsMapRename

  /** The first element of an iteration over a BTreeSet. */
  method First(s: set<Path>) returns (p: Path)
    requires s != {}
    ensures p == Least(s)
  {
    LeastExists(s);
    p :| p in s && IsLeast(p, s);
    LeastUnique(p, Least(s), s);
  }

  class FSMap {
    var idToPath: map<FileId, FSEntry>
    var pathToId: map<Path, FileId>
    var inodeToId: map<InodeKey, FileId>
    var idToInode: map<FileId, InodeKey>
    var nextFileid: FileId

    ghost function View(): State
      reads this
    {
      State(idToPath, pathToId, inodeToId, idToInode, nextFileid)
    }

    constructor (root: Meta)
      ensures View() == Initial(root)
    {
      idToPath := map[0 := NewEntry([], ToAttr(1, root))];
      pathToId := map[[] := 0];
      inodeToId := map[root.inode := 0];
      idToInode := map[0 := root.inode];
      nextFileid := 1;
    }

    method RemovePath(path: Path) returns (removed: Option<FileId>)
      modifies this
      ensures View() == FsMapState.RemovePath(old(View()), path)
      ensures removed == if path in old(pathToId) then Some(old(pathToId)[path]) else None
    {
      if path !in pathToId {
        return None;
      }
      var fileid := pathToId[path];
      pathToId := pathToId - {path};
      if fileid in idToPath {
        var entry := idToPath[fileid];
        entry := entry.(aliases := entry.aliases - {path});
        if entry.name == path && entry.aliases != {} {
          var primary := First(entry.aliases);
          entry := entry.(name := primary);
        }
        if entry.aliases == {} {
          idToPath := idToPath - {fileid};
          if fileid in idToInode {
            var inode := idToInode[fileid];
            idToInode := idToInode - {fileid};
            inodeToId := inodeToId - {inode};
          } else {
            assert idToInode - {fileid} == idToInode;
          }
        } else {
          idToPath := idToPath[fileid := entry];
        }
      }
      return Some(fileid);
    }

    method RenamePathPrefix(from: Path, to: Path) returns (ghost order: seq<Path>)
      modifies this
      ensures IsListing(order, Below(old(View()), from))
      ensures View() == RenamePrefix(old(View()), from, to, order)
    {
      if from == to {
        FsMapRename.ListingExists(Below(View(), from));
        order :| IsListing(order, Below(View(), from));
        return;
      }
      var updates;
      updates, order := CollectMoves(from, to);
      ApplyMoves(updates);
    }

    /** The first loop of rename_path_prefix, over the hash map in any order. */
    method CollectMoves(from: Path, to: Path) returns (updates: seq<Move>, ghost order: seq<Path>)
      ensures IsListing(order, Below(View(), from))
      ensures forall i | 0 <= i < |order| :: order[i] in pathToId && from <= order[i]
      ensures updates == MovesFor(View(), from, to, order)
    {
      updates := [];
      order := [];
      var unseen := pathToId.Keys;
      while unseen != {}
        invariant unseen <= pathToId.Keys
        invariant IsListing(order, Below(View(), from) - unseen)
        invariant forall i | 0 <= i < |order| :: order[i] in pathToId && from <= order[i]
        invariant updates == MovesFor(View(), from, to, order)
        decreases |unseen|
      {
        var path :| path in unseen;
        ListingGrows(order, Below(View(), from), unseen, path);
        unseen := unseen - {path};
        if from <= path {
          updates := updates + [Move(path, Rebase(path, from, to), pathToId[path])];
          MovesForAppend(View(), from, to, order, path);
          order := order + [path];
        }
      }
      assert Below(View(), from) - unseen == Below(View(), from);
    }

    /** The second loop of rename_path_prefix. */
    method ApplyMoves(updates: seq<Move>)
      modifies this
      ensures View() == MoveAll(old(View()), updates)
    {
      var i := 0;
      while i < |updates|
        invariant 0 <= i <= |updates|
        invariant MoveAll(View(), updates[i..]) == MoveAll(old(View()), updates)
      {
        assert updates[i..][0] == updates[i] && updates[i..][1..] == updates[i + 1..];
        ApplyMove(updates[i]);
        i := i + 1;
      }
      assert updates[i..] == [];
    }

    method ApplyMove(u: Move)
      modifies this
      ensures View() == MoveOne(old(View()), u)
    {
      pathToId := pathToId - {u.source};
      pathToId := pathToId[u.target := u.id];
      if u.id in idToPath {
        var entry := idToPath[u.id];
        if u.source in entry.aliases {
          entry := entry.(aliases := entry.aliases - {u.source} + {u.target});
        }
        if entry.name == u.source {
          entry := entry.(name := u.target);
        }
        idToPath := idToPath[u.id := entry];
      }
    }

    method RemovePathTree(path: Path, id: FileId, ghost depth: nat)
      requires RemoveTree(View(), path, id, depth).Some?
      modifies this
      ensures Some(View()) == old(RemoveTree(View(), path, id, depth))
      decreases depth, 0
    {
      if id !in idToPath {
        return;
      }
      var entry := idToPath[id];
      if entry.IsDirectory() && entry.children.Some? {
        RemoveChildren(path, entry.children.value, depth - 1);
      }
      var _ := RemovePath(path);
    }

    /** The loop of remove_path_tree over the cached children. */
    method RemoveChildren(path: Path, children: map<Symbol, FileId>, ghost depth: nat)
      requires FsMapState.RemoveChildren(View(), path, children, Ascending(children.Keys), depth).Some?
      modifies this
      ensures Some(View()) == old(FsMapState.RemoveChildren(View(), path, children, Ascending(children.Keys), depth))
      decreases depth, 2
    {
      var names := SortedNames(children);
      var i := 0;
      while i < |names|
        invariant 0 <= i <= |names|
        invariant forall s | s in names[i..] :: s in children
        invariant FsMapState.RemoveChildren(View(), path, children, names[i..], depth)
               == FsMapState.RemoveChildren(old(View()), path, children, names, depth)
      {
        assert names[i..][0] == names[i] && names[i..][1..] == names[i + 1..];
        RemoveChild(path + [names[i]], children[names[i]], depth);
        i := i + 1;
      }
      assert names[i..] == [];
    }

    /** One round of the loop over the children. */
    method RemoveChild(childPath: Path, childId: FileId, ghost depth: nat)
      requires FsMapState.RemoveChild(View(), childPath, childId, depth).Some?
      modifies this
      ensures Some(View()) == old(FsMapState.RemoveChild(View(), childPath, childId, depth))
      decreases depth, 1
    {
      if childId in idToPath {
        if idToPath[childId].IsDirectory() {
          RemovePathTree(childPath, childId, depth);
        } else {
          var _ := RemovePath(childPath);
        }
      } else {
        var _ := RemovePath(childPath);
      }
    }

    method DeleteEntry(id: FileId, ghost depth: nat)
      requires FsMapState.DeleteEntry(View(), id, depth).Some?
      modifies this
      ensures Some(View()) == old(FsMapState.DeleteEntry(View(), id, depth))
    {
      if id in idToPath {
        RemovePathTree(idToPath[id].name, id, depth);
      }
    }

    method FindChild(id: FileId, name: Symbol) returns (r: Result<FileId, Status>)
      ensures r == FsMapState.FindChild(View(), id, name)
    {
      if id !in idToPath {
        return Error(NoEnt);
      }
      var path := idToPath[id].name + [name];
      if path !in pathToId {
        return Error(NoEnt);
      }
      return Ok(pathToId[path]);
    }

    /** The alias loop of refresh_entry: missing aliases are unmapped, and the first
        existing one is to become primary. */
    method ForgetMissing(aliases: set<Path>, present: set<Path>) returns (existing: set<Path>, primary: Option<Path>)
      modifies this`pathToId
      ensures existing == aliases * present
      ensures primary == if existing == {} then None else Some(Least(existing))
      ensures pathToId == old(pathToId) - (aliases - present)
    {
      existing := {};
      primary := None;
      var unseen := aliases;
      ghost var seen: set<Path> := {};
      assert pathToId - {} == pathToId;
      while unseen != {}
        invariant seen + unseen == aliases
        invariant existing == seen * present
        invariant forall a, b | a in existing && b in unseen :: PathLe(a, b)
        invariant primary == if existing == {} then None else Some(Least(existing))
        invariant pathToId == old(pathToId) - (seen - present)
        decreases |unseen|
      {
        var alias := First(unseen);
        SplitSeen(seen, alias, present);
        UnmapOne(old(pathToId), seen - present, alias);
        seen, unseen := seen + {alias}, unseen - {alias};
        if alias in present {
          LeastExtended(existing, alias);
          existing := existing + {alias};
          if primary.None? {
            primary := Some(alias);
          }
        } else {
          pathToId := pathToId - {alias};
        }
      }
      assert seen == aliases;
    }

    method KeepExisting(id: FileId, present: set<Path>) returns (primary: Option<Path>)
      requires id in idToPath
      modifies this
      ensures View() == KeepPresent(old(View()), id, present)
      ensures primary.None? <==> old(idToPath)[id].aliases * present == {}
      ensures id in idToPath && idToInode == old(idToInode)
    {
      var entry := idToPath[id];
      var existing;
      existing, primary := ForgetMissing(entry.aliases, present);
      if primary.Some? {
        idToPath := idToPath[id := entry.(aliases := existing, name := primary.value)];
      }
    }

    method RefreshEntry(id: FileId, probe: Probe, ghost depth: nat) returns (r: Result<Refresh, Status>)
      requires FsMapState.RefreshEntry(View(), id, probe, depth).Some?
      modifies this
      ensures Some((View(), r)) == old(FsMapState.RefreshEntry(View(), id, probe, depth))
    {
      if id !in idToPath {
        return Error(NoEnt);
      }
      var entry := idToPath[id];
      var primary := KeepExisting(id, probe.present);
      if primary.None? {
        DeleteEntry(id, depth);
        return Ok(Delete);
      }
      if probe.meta.None? {
        return Error(IO);
      }
      var meta := probe.meta.value;
      if !(id in idToInode && idToInode[id] == meta.inode) {
        DeleteEntry(id, depth);
        return Ok(Delete);
      }
      idToInode := idToInode[id := meta.inode];
      inodeToId := inodeToId[meta.inode := id];
      var attr := ToAttr(id, meta);
      if !Differ(attr, entry.fsmeta) {
        return Ok(Noop);
      }
      if entry.fsmeta.ftype != attr.ftype {
        DeleteEntry(id, depth);
        return Ok(Delete);
      }
      idToPath := idToPath[id := idToPath[id].(fsmeta := attr)];
      return Ok(Reload);
    }

    method RefreshDirList(id: FileId, scan: Scan) returns (r: Result<(), Status>)
      modifies this
      ensures (View(), r) == FsMapState.RefreshDirList(old(View()), id, scan)
    {
      ghost var m := View();
      if id !in idToPath {
        return Error(NoEnt);
      }
      var entry := idToPath[id];
      if !entry.IsDirectory() {
        return Ok(());
      }
      if scan.Unreadable? {
        return Error(scan.status);
      }
      var children: map<Symbol, FileId> := map[];
      var i := 0;
      while i < |scan.items|
        invariant 0 <= i <= |scan.items|
        invariant ScanItems(View(), entry.name, scan.items[i..], children)
               == ScanItems(m, entry.name, scan.items, map[])
      {
        var item := scan.items[i];
        assert scan.items[i..][0] == item && scan.items[i..][1..] == scan.items[i + 1..];
        if item.meta.None? {
          return Error(IO);
        }
        var child := CreateEntry(entry.name + [item.name], item.meta.value);
        children := children[item.name := child];
        i := i + 1;
      }
      assert scan.items[i..] == [];
      if scan.fault.Some? {
        return Error(scan.fault.value);
      }
      ghost var scanned := View();
      ghost var all := Ascending(KnownChildren(entry));
      if entry.children.Some? {
        var names := SortedNames(entry.children.value);
        i := 0;
        while i < |names|
          invariant 0 <= i <= |names|
          invariant DropAbsent(View(), entry.name, names[i..], children)
                 == DropAbsent(scanned, entry.name, names, children)
        {
          assert names[i..][0] == names[i] && names[i..][1..] == names[i + 1..];
          if names[i] !in children {
            var _ := RemovePath(entry.name + [names[i]]);
          }
          i := i + 1;
        }
        assert names[i..] == [];
      }
      if id in idToPath {
        idToPath := idToPath[id := idToPath[id].(children := Some(children), childrenMeta := idToPath[id].fsmeta)];
      }
      return Ok(());
    }

    method CreateEntry(path: Path, meta: Meta) returns (id: FileId)
      modifies this
      ensures (View(), id) == FsMapState.CreateEntry(old(View()), path, meta)
    {
      if path in pathToId {
        id := pathToId[path];
        if id in idToInode && idToInode[id] == meta.inode {
          if id in idToPath {
            idToPath := idToPath[id := idToPath[id].(fsmeta := ToAttr(id, meta))];
          }
          return;
        }
        var _ := RemovePath(path);
        RemovedIsUnmapped(old(View()), path);
      }
      if meta.inode in inodeToId {
        id := inodeToId[meta.inode];
        if id in idToPath {
          idToPath := idToPath[id := idToPath[id].(fsmeta := ToAttr(id, meta))];
          idToPath := idToPath[id := idToPath[id].(aliases := idToPath[id].aliases + {path})];
        }
        pathToId := pathToId[path := id];
        if id !in idToInode {
          idToInode := idToInode[id := meta.inode];
        }
        return;
      }
      id := nextFileid;
      nextFileid := nextFileid + 1;
      idToPath := idToPath[id := NewEntry(path, ToAttr(id, meta))];
      pathToId := pathToId[path := id];
      inodeToId := inodeToId[meta.inode := id];
      idToInode := idToInode[id := meta.inode];
    }
  }

  lemma RemovedIsUnmapped(m: State, path: Path)
    ensures path !in FsMapState.RemovePath(m, path).pathToId
  {
  }

  lemma ListingGrows(order: seq<Path>, all: set<Path>, unseen: set<Path>, path: Path)
    requires IsListing(order, all - unseen) && path in unseen
    ensures IsListing(if path in all then order + [path] else order, all - (unseen - {path}))
  {
    assert path !in order;
    if path in all {
      assert forall x :: x in order + [path] <==> x in order || x == path;
    }
  }

  lemma MovesForAppend(m: State, from: Path, to: Path, order: seq<Path>, path: Path)
    requires forall i | 0 <= i < |order| :: order[i] in m.pathToId && from <= order[i]
    requires path in m.pathToId && from <= path
    ensures MovesFor(m, from, to, order + [path])
         == MovesFor(m, from, to, order) + [Move(path, Rebase(path, from, to), m.pathToId[path])]
  {
  }

  lemma SplitSeen(seen: set<Path>, alias: Path, present: set<Path>)
    ensures alias in present ==>
      (seen + {alias}) * present == seen * present + {alias} && (seen + {alias}) - present == seen - present
    ensures alias !in present ==>
      (seen + {alias}) * present == seen * present && (seen + {alias}) - present == (seen - present) + {alias}
  {
  }

  lemma UnmapOne(m: map<Path, FileId>, dead: set<Path>, alias: Path)
    ensures (m - dead) - {alias} == m - (dead + {alias})
  {
  }

  /** Extending a set by an element above all of it keeps its least element. */
  lemma LeastExtended(s: set<Path>, p: Path)
    requires forall a | a in s :: PathLe(a, p)
    ensures Least(s + {p}) == if s == {} then p else Least(s)
  {
    if s == {} {
      assert s + {p} == {p};
    } else {
      LeastUnique(Least(s), Least(s + {p}), s + {p});
    }
  }

  lemma AppendThen(names: seq<Symbol>, k: Symbol, tail: seq<Symbol>)
    ensures names + ([k] + tail) == (names + [k]) + tail
  {
  }

  /** The keys of a BTreeMap in iteration order. */
  method SortedNames(children: map<Symbol, FileId>) returns (names: seq<Symbol>)
    ensures names == Ascending(children.Keys)
  {
    names := [];
    var rest := children.Keys;
    while rest != {}
      invariant names + Ascending(rest) == Ascending(children.Keys)
      decreases |rest|
    {
      LeastSymbolExists(rest);
      var k :| k in rest && IsLeastSymbol(k, rest);
      assert k == LeastSymbol(rest);
      AppendThen(names, k, Ascending(rest - {k}));
      names, rest := names + [k], rest - {k};
    }
  }
}
