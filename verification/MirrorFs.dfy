/** The mirror file system over its cache: each method runs the cache steps of
    one call in place and refines the transition of the same name. */
module MirrorFs {
  import opened Wrappers
  import opened Ordered
  import opened FsMapState
  import opened FsMap
  import MirrorFsCalls

  class MirrorFS {
    const fsmap: FSMap

    constructor (root: Meta)
      ensures fresh(fsmap) && fsmap.View() == Initial(root)
    {
      fsmap := new FSMap(root);
    }

    method Lookup(dir: FileId, name: Symbol, disk: MirrorFsCalls.LookupDisk, ghost depth: nat)
      returns (r: Result<FileId, Status>)
      requires MirrorFsCalls.Lookup(fsmap.View(), dir, name, disk, depth).Some?
      modifies fsmap
      ensures Some((fsmap.View(), r)) == old(MirrorFsCalls.Lookup(fsmap.View(), dir, name, disk, depth))
    {
      var hit := fsmap.FindChild(dir, name);
      if hit.Ok? && hit.value in fsmap.idToPath {
        var refreshed := fsmap.RefreshEntry(hit.value, disk.child, depth);
        if refreshed.Error? {
          return Error(refreshed.error);
        }
        if refreshed.value != Delete {
          var again := fsmap.FindChild(dir, name);
          return if again.Ok? then hit else Error(NoEnt);
        }
      }
      r := LookupOnDisk(dir, name, disk, depth);
    }

    method LookupOnDisk(dir: FileId, name: Symbol, disk: MirrorFsCalls.LookupDisk, ghost depth: nat)
      returns (r: Result<FileId, Status>)
      requires MirrorFsCalls.LookupOnDisk(fsmap.View(), dir, name, disk, depth).Some?
      modifies fsmap
      ensures Some((fsmap.View(), r)) == old(MirrorFsCalls.LookupOnDisk(fsmap.View(), dir, name, disk, depth))
    {
      if dir !in fsmap.idToPath || !disk.exists_ {
        return Error(NoEnt);
      }
      var refreshed := fsmap.RefreshEntry(dir, disk.dir, depth);
      if refreshed.Error? {
        return Error(refreshed.error);
      }
      if refreshed.value == Delete {
        return Error(NoEnt);
      }
      var listed := fsmap.RefreshDirList(dir, disk.scan);
      if listed.Error? {
        return Error(listed.error);
      }
      r := fsmap.FindChild(dir, name);
    }

    /** Enters a freshly made object in the cache and in its directory's cached children. */
    method EnterChild(dir: FileId, path: Path, name: Symbol, meta: Meta) returns (r: Result<FileId, Status>)
      modifies fsmap
      ensures (fsmap.View(), r) == MirrorFsCalls.EnterChild(old(fsmap.View()), dir, path, name, meta)
    {
      var id := fsmap.CreateEntry(path, meta);
      if dir !in fsmap.idToPath {
        return Error(NoEnt);
      }
      var entry := fsmap.idToPath[dir];
      if entry.children.Some? {
        fsmap.idToPath := fsmap.idToPath[dir := entry.(children := Some(entry.children.value[name := id]))];
      }
      return Ok(id);
    }

    method CreateObject(dir: FileId, name: Symbol, disk: MirrorFsCalls.CreateDisk, ghost depth: nat)
      returns (r: Result<FileId, Status>)
      requires MirrorFsCalls.CreateObject(fsmap.View(), dir, name, disk, depth).Some?
      modifies fsmap
      ensures Some((fsmap.View(), r)) == old(MirrorFsCalls.CreateObject(fsmap.View(), dir, name, disk, depth))
    {
      if dir !in fsmap.idToPath {
        return Error(NoEnt);
      }
      var path := fsmap.idToPath[dir].name + [name];
      if disk.made.Error? {
        return Error(disk.made.error);
      }
      var refreshed := fsmap.RefreshEntry(dir, disk.dir, depth);
      if refreshed.Error? {
        return Error(refreshed.error);
      }
      if disk.meta.None? {
        return Error(IO);
      }
      r := EnterChild(dir, path, name, disk.meta.value);
    }

    method MakeNode(dir: FileId, name: Symbol, disk: MirrorFsCalls.NodeDisk) returns (r: Result<FileId, Status>)
      modifies fsmap
      ensures (fsmap.View(), r) == MirrorFsCalls.MakeNode(old(fsmap.View()), dir, name, disk)
    {
      if dir !in fsmap.idToPath {
        return Error(NoEnt);
      }
      if disk.made.Error? {
        return Error(disk.made.error);
      }
      if disk.meta.None? {
        return Error(IO);
      }
      r := EnterChild(dir, fsmap.idToPath[dir].name + [name], name, disk.meta.value);
    }

    method Link(file: FileId, dir: FileId, name: Symbol, disk: MirrorFsCalls.NodeDisk, source: Option<Meta>)
      returns (r: Result<Attr, Status>)
      modifies fsmap
      ensures (fsmap.View(), r) == MirrorFsCalls.Link(old(fsmap.View()), file, dir, name, disk, source)
    {
      if file !in fsmap.idToPath {
        return Error(NoEnt);
      }
      var entered := MakeNode(dir, name, disk);
      if entered.Error? {
        return Error(entered.error);
      }
      if source.None? {
        return Error(IO);
      }
      var attr := ToAttr(file, source.value);
      if file in fsmap.idToPath {
        fsmap.idToPath := fsmap.idToPath[file := fsmap.idToPath[file].(fsmeta := attr)];
      }
      return Ok(attr);
    }

    method DropChild(dir: FileId, name: Symbol)
      modifies fsmap
      ensures fsmap.View() == MirrorFsCalls.DropChild(old(fsmap.View()), dir, name)
    {
      if dir in fsmap.idToPath {
        var entry := fsmap.idToPath[dir];
        if entry.children.Some? {
          fsmap.idToPath := fsmap.idToPath[dir := entry.(children := Some(entry.children.value - {name}))];
        }
      }
    }

    method Remove(dir: FileId, name: Symbol, disk: MirrorFsCalls.RemoveDisk, ghost depth: nat)
      returns (r: Result<(), Status>)
      requires MirrorFsCalls.Remove(fsmap.View(), dir, name, disk, depth).Some?
      modifies fsmap
      ensures Some((fsmap.View(), r)) == old(MirrorFsCalls.Remove(fsmap.View(), dir, name, disk, depth))
    {
      if dir !in fsmap.idToPath || !disk.found {
        return Error(NoEnt);
      }
      if !disk.removed {
        return Error(IO);
      }
      var _ := fsmap.RemovePath(fsmap.idToPath[dir].name + [name]);
      DropChild(dir, name);
      var _ := fsmap.RefreshEntry(dir, disk.dir, depth);
      return Ok(());
    }

    /** The part of rename that moves the cached subtree. */
    method MoveCached(fromDir: FileId, fromName: Symbol, toDir: FileId, toName: Symbol, ghost depth: nat)
      requires fromDir in fsmap.idToPath && toDir in fsmap.idToPath
      requires fsmap.idToPath[fromDir].name + [fromName] in fsmap.pathToId ==>
        MirrorFsCalls.ClearTarget(fsmap.View(), fsmap.idToPath[toDir].name + [toName], depth).Some?
      modifies fsmap
      ensures old(fromDir in fsmap.idToPath && toDir in fsmap.idToPath)
      ensures MirrorFsCalls.MovesTo(old(fsmap.View()), fromDir, fromName, toDir, toName, fsmap.View(), depth)
    {
      var from := fsmap.idToPath[fromDir].name + [fromName];
      var to := fsmap.idToPath[toDir].name + [toName];
      if from in fsmap.pathToId {
        if to in fsmap.pathToId {
          var target := fsmap.pathToId[to];
          if target in fsmap.idToPath && fsmap.idToPath[target].IsDirectory() {
            fsmap.RemovePathTree(to, target, depth);
          } else {
            var _ := fsmap.RemovePath(to);
          }
        }
        assert fsmap.View() == MirrorFsCalls.ClearTarget(old(fsmap.View()), to, depth).value;
        ghost var order := fsmap.RenamePathPrefix(from, to);
        ghost var renamed := fsmap.View();
        DropChild(fromDir, fromName);
        if to in fsmap.pathToId && toDir in fsmap.idToPath {
          var entry := fsmap.idToPath[toDir];
          if entry.children.Some? {
            var children := entry.children.value[toName := fsmap.pathToId[to]];
            fsmap.idToPath := fsmap.idToPath[toDir := entry.(children := Some(children))];
          }
        }
        assert fsmap.View() == MirrorFsCalls.MoveChild(renamed, fromDir, fromName, toDir, toName, to);
      }
    }

    method Rename(
      fromDir: FileId, fromName: Symbol, toDir: FileId, toName: Symbol, disk: MirrorFsCalls.RenameDisk,
      ghost depth: nat)
      returns (r: Result<(), Status>)
      requires MirrorFsCalls.RenameAttempted(fsmap.View(), fromDir, fromName, toDir, toName, disk) ==>
        && (fsmap.idToPath[fromDir].name + [fromName] in fsmap.pathToId ==>
          MirrorFsCalls.ClearTarget(fsmap.View(), fsmap.idToPath[toDir].name + [toName], depth).Some?)
        && forall moved | MirrorFsCalls.MovesTo(fsmap.View(), fromDir, fromName, toDir, toName, moved, depth) ::
          MirrorFsCalls.RefreshBoth(moved, fromDir, toDir, disk, depth).Some?
      modifies fsmap
      ensures MirrorFsCalls.Renames(old(fsmap.View()), fromDir, fromName, toDir, toName, disk, fsmap.View(), depth)
      ensures r ==
        if old(MirrorFsCalls.RenameAttempted(fsmap.View(), fromDir, fromName, toDir, toName, disk)) then Ok(())
        else old(MirrorFsCalls.RenameRefusal(fsmap.View(), fromDir, fromName, toDir, toName, disk))
    {
      if fromDir !in fsmap.idToPath || toDir !in fsmap.idToPath || !disk.toDirExists || !disk.fromExists {
        return Error(NoEnt);
      }
      if fsmap.idToPath[fromDir].name + [fromName] == fsmap.idToPath[toDir].name + [toName] || disk.same {
        return Ok(());
      }
      if !disk.renamed {
        return Error(IO);
      }
      MoveCached(fromDir, fromName, toDir, toName, depth);
      ghost var moved := fsmap.View();
      var _ := fsmap.RefreshEntry(fromDir, disk.from, depth);
      if toDir != fromDir {
        var _ := fsmap.RefreshEntry(toDir, disk.to, depth);
      }
      assert Some(fsmap.View()) == MirrorFsCalls.RefreshBoth(moved, fromDir, toDir, disk, depth);
      return Ok(());
    }

    /** Builds the full listing that readdir pages through. */
    method Listing(dir: FileId) returns (r: Result<seq<MirrorFsCalls.DirEntry>, Status>)
      ensures r == MirrorFsCalls.Listing(fsmap.View(), dir)
    {
      if dir !in fsmap.idToPath {
        return Error(NoEnt);
      }
      var entry := fsmap.idToPath[dir];
      if !entry.IsDirectory() {
        return Error(NotDir);
      }
      if entry.children.None? {
        return Error(IO);
      }
      var children := entry.children.value;
      var self := MirrorFsCalls.DirEntry(dir, MirrorFsCalls.Dot, entry.fsmeta.(fileid := dir));
      var all := [self];
      var parent := dir;
      if entry.name != [] {
        var parentName := entry.name[..|entry.name| - 1];
        if parentName !in fsmap.pathToId {
          return Error(IO);
        }
        parent := fsmap.pathToId[parentName];
      }
      if parent !in fsmap.idToPath {
        return Error(NoEnt);
      }
      var up := MirrorFsCalls.DirEntry(parent, MirrorFsCalls.DotDot, fsmap.idToPath[parent].fsmeta.(fileid := parent));
      all := all + [up];
      assert all == [self, up];
      var names := SortedNames(children);
      assert MirrorFsCalls.Listing(fsmap.View(), dir) == MirrorFsCalls.ListChildren(fsmap.View(), children, names, all);
      var i := 0;
      while i < |names|
        invariant 0 <= i <= |names|
        invariant forall s | s in names[i..] :: s in children
        invariant MirrorFsCalls.ListChildren(fsmap.View(), children, names[i..], all)
               == MirrorFsCalls.Listing(fsmap.View(), dir)
      {
        assert names[i..][0] == names[i] && names[i..][1..] == names[i + 1..];
        var fileid := children[names[i]];
        if fileid !in fsmap.idToPath {
          return Error(NoEnt);
        }
        var attr := fsmap.idToPath[fileid].fsmeta.(fileid := fileid);
        all := all + [MirrorFsCalls.DirEntry(fileid, MirrorFsCalls.Child(names[i]), attr)];
        i := i + 1;
      }
      assert names[i..] == [];
      return Ok(all);
    }

    method ReadDir(dir: FileId, probe: Probe, scan: Scan, ghost depth: nat)
      returns (r: Result<seq<MirrorFsCalls.DirEntry>, Status>)
      requires MirrorFsCalls.ReadDir(fsmap.View(), dir, probe, scan, depth).Some?
      modifies fsmap
      ensures Some((fsmap.View(), r)) == old(MirrorFsCalls.ReadDir(fsmap.View(), dir, probe, scan, depth))
    {
      var refreshed := fsmap.RefreshEntry(dir, probe, depth);
      if refreshed.Error? {
        return Error(refreshed.error);
      }
      var listed := fsmap.RefreshDirList(dir, scan);
      if listed.Error? {
        return Error(listed.error);
      }
      r := Listing(dir);
    }
  }
}
