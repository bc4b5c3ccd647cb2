/** What every operation on the cache keeps: the index invariant, and the
    binding between file ids and inodes. */
module FsMapInvariant {
  import opened Wrappers
  import opened Ordered
  import opened FsMapState

  ghost predicate Lists(m: State, id: FileId, p: Path) {
    id in m.idToPath && p in m.idToPath[id].aliases
  }

  ghost predicate MapsTo(m: State, path: Path, id: FileId) {
    path in m.pathToId && m.pathToId[path] == id
  }

  ghost predicate SameMapping(m: State, n: State, path: Path) {
    (path in n.pathToId <==> path in m.pathToId) && (path in m.pathToId ==> n.pathToId[path] == m.pathToId[path])
  }

  /** Every mapped path names a live id that lists it. */
  ghost predicate Forward(m: State) {
    forall p | p in m.pathToId :: Lists(m, m.pathToId[p], p)
  }

  /** Every listed alias is mapped to the id that lists it: false after some refreshes. */
  ghost predicate Backward(m: State) {
    forall id, p | Lists(m, id, p) :: p in m.pathToId && m.pathToId[p] == id
  }

  ghost predicate PrimaryListed(m: State) {
    forall id | id in m.idToPath :: Lists(m, id, m.idToPath[id].name)
  }

  ghost predicate InodesInverse(m: State) {
    && (forall id | id in m.idToInode :: m.idToInode[id] in m.inodeToId && m.inodeToId[m.idToInode[id]] == id)
    && (forall k | k in m.inodeToId :: m.inodeToId[k] in m.idToInode && m.idToInode[m.inodeToId[k]] == k)
  }

  ghost predicate Issued(m: State) {
    forall id | id in m.idToPath :: id < m.nextFileid
  }

  ghost predicate Inv(m: State) {
    && Forward(m)
    && PrimaryListed(m)
    && InodesInverse(m)
    && m.idToPath.Keys == m.idToInode.Keys
    && Issued(m)
  }

  /** Index invariant in its exact form: paths and aliases are inverse to each other. */
  ghost predicate Exact(m: State) {
    Inv(m) && Backward(m)
  }

  /** From `m` to `n` no id changed its inode, none came back, and new ones are new. */
  ghost predicate Stable(m: State, n: State) {
    && m.nextFileid <= n.nextFileid
    && (forall id | id in n.idToInode && id < m.nextFileid :: id in m.idToInode && m.idToInode[id] == n.idToInode[id])
  }

  /** What a step from `m` to `n` keeps: the index invariant, its exact form if it held, and the bindings. */
  ghost predicate Kept(m: State, n: State) {
    Inv(n) && Stable(m, n) && (Backward(m) ==> Backward(n))
  }

  lemma KeptTransitive(a: State, b: State, c: State)
    requires Kept(a, b) && Kept(b, c)
    ensures Kept(a, c)
  {
    StableTransitive(a, b, c);
  }

  lemma StableTransitive(a: State, b: State, c: State)
    requires Stable(a, b) && Stable(b, c)
    ensures Stable(a, c)
  {
  }

  lemma InitialExact(root: Meta)
    ensures Exact(Initial(root))
  {
  }

  // ---- remove_path -------------------------------------------------------

  lemma RemovePathKeeps(m: State, path: Path)
    requires Inv(m)
    ensures Kept(m, RemovePath(m, path)) && path !in RemovePath(m, path).pathToId
  {
    var n := RemovePath(m, path);
    if path in m.pathToId {
      var id := m.pathToId[path];
      assert Lists(m, id, path);
      forall p | p in n.pathToId ensures Lists(n, n.pathToId[p], p) {
        assert Lists(m, m.pathToId[p], p);
      }
      forall i | i in n.idToPath ensures Lists(n, i, n.idToPath[i].name) {
        assert Lists(m, i, m.idToPath[i].name);
      }
      if Backward(m) {
        forall i, p | Lists(n, i, p) ensures p in n.pathToId && n.pathToId[p] == i {
          assert Lists(m, i, p);
        }
      }
    }
  }

  // ---- create_entry ------------------------------------------------------

  lemma SetMetaKeeps(m: State, id: FileId, fsmeta: Attr)
    requires Inv(m)
    ensures Kept(m, SetMeta(m, id, fsmeta))
  {
    var n := SetMeta(m, id, fsmeta);
    assert forall i, p :: Lists(n, i, p) <==> Lists(m, i, p);
  }

  /** A path that is not mapped becomes one more alias of a live id. */
  lemma LinkKeeps(m: State, id: FileId, path: Path)
    requires Inv(m) && path !in m.pathToId && id in m.idToPath
    ensures var a := AddAlias(m, id, path); var n := a.(pathToId := a.pathToId[path := id]);
      Inv(n) && (Backward(m) ==> Backward(n))
  {
    var a := AddAlias(m, id, path);
    var n := a.(pathToId := a.pathToId[path := id]);
    forall p | p in n.pathToId ensures Lists(n, n.pathToId[p], p) {
      assert p != path ==> Lists(m, m.pathToId[p], p);
    }
    forall i | i in n.idToPath ensures Lists(n, i, n.idToPath[i].name) {
      assert Lists(m, i, m.idToPath[i].name);
    }
    assert InodesInverse(n);
    if Backward(m) {
      forall i, p | Lists(n, i, p) ensures p in n.pathToId && n.pathToId[p] == i {
        assert p != path ==> Lists(m, i, p);
        if p == path && i != id {
          assert Lists(m, i, p);
        }
      }
    }
  }

  lemma AttachKnown(m: State, path: Path, meta: Meta)
    requires Inv(m) && path !in m.pathToId && meta.inode in m.inodeToId
    ensures Inv(Attach(m, path, meta).0)
    ensures Backward(m) ==> Backward(Attach(m, path, meta).0)
  {
    var id := m.inodeToId[meta.inode];
    assert id in m.idToInode && id in m.idToPath;
    SetMetaKeeps(m, id, ToAttr(id, meta));
    LinkKeeps(SetMeta(m, id, ToAttr(id, meta)), id, path);
  }

  lemma AttachNew(m: State, path: Path, meta: Meta)
    requires Inv(m) && path !in m.pathToId && meta.inode !in m.inodeToId
    ensures Inv(Attach(m, path, meta).0)
    ensures Backward(m) ==> Backward(Attach(m, path, meta).0)
  {
    var (n, id) := Attach(m, path, meta);
    assert id !in m.idToPath && id !in m.idToInode;
    forall p | p in n.pathToId ensures Lists(n, n.pathToId[p], p) {
      assert p != path ==> Lists(m, m.pathToId[p], p);
    }
    forall i | i in n.idToPath ensures Lists(n, i, n.idToPath[i].name) {
      assert i != id ==> Lists(m, i, m.idToPath[i].name);
    }
    if Backward(m) {
      forall i, p | Lists(n, i, p) ensures p in n.pathToId && n.pathToId[p] == i {
        assert i != id ==> Lists(m, i, p);
      }
    }
  }

  lemma AttachBinds(m: State, path: Path, meta: Meta)
    requires Inv(m) && path !in m.pathToId
    ensures var (n, id) := Attach(m, path, meta);
      && Stable(m, n)
      && n.pathToId == m.pathToId[path := id]
      && id in n.idToInode && n.idToInode[id] == meta.inode
      && id in n.idToPath && n.idToPath[id].fsmeta == ToAttr(id, meta)
  {
  }

  lemma CreateEntryKeeps(m: State, path: Path, meta: Meta)
    requires Inv(m)
    ensures Kept(m, CreateEntry(m, path, meta).0)
  {
    var d := Detach(m, path, meta.inode);
    RemovePathKeeps(m, path);
    if path in d.pathToId {
      SetMetaKeeps(d, d.pathToId[path], ToAttr(d.pathToId[path], meta));
    } else {
      if meta.inode in d.inodeToId {
        AttachKnown(d, path, meta);
      } else {
        AttachNew(d, path, meta);
      }
      AttachBinds(d, path, meta);
      KeptTransitive(m, d, Attach(d, path, meta).0);
    }
  }

  lemma RemovePathUnmaps(m: State, path: Path)
    ensures RemovePath(m, path).pathToId == m.pathToId - {path}
  {
  }

  lemma DetachKeepsMatch(m: State, path: Path, inode: InodeKey)
    requires path in Detach(m, path, inode).pathToId
    ensures Detach(m, path, inode) == m
    ensures m.pathToId[path] in m.idToInode && m.idToInode[m.pathToId[path]] == inode
  {
    RemovePathUnmaps(m, path);
  }

  lemma RemapUnmapped(paths: map<Path, FileId>, path: Path, id: FileId)
    ensures (paths - {path})[path := id] == paths[path := id]
  {
  }

  lemma AttachMaps(m: State, path: Path, meta: Meta)
    ensures Attach(m, path, meta).0.pathToId == m.pathToId[path := Attach(m, path, meta).1]
  {
  }

  lemma DetachPaths(m: State, path: Path, inode: InodeKey)
    requires path !in Detach(m, path, inode).pathToId
    ensures Detach(m, path, inode).pathToId == m.pathToId - {path}
  {
    RemovePathUnmaps(m, path);
  }

  /** create_entry maps its path to the id it returns, and maps nothing else anew. */
  lemma CreateEntryMaps(m: State, path: Path, meta: Meta)
    ensures var (n, id) := CreateEntry(m, path, meta); n.pathToId == m.pathToId[path := id]
  {
    var d := Detach(m, path, meta.inode);
    if path in d.pathToId {
      DetachKeepsMatch(m, path, meta.inode);
    } else {
      DetachPaths(m, path, meta.inode);
      AttachMaps(d, path, meta);
      RemapUnmapped(m.pathToId, path, Attach(d, path, meta).1);
    }
  }

  /** The id returned is live and is bound to the inode given, with its new attributes. */
  lemma CreateEntryBinds(m: State, path: Path, meta: Meta)
    requires Inv(m)
    ensures var (n, id) := CreateEntry(m, path, meta);
      && id in n.idToInode && n.idToInode[id] == meta.inode
      && id in n.idToPath && n.idToPath[id].fsmeta == ToAttr(id, meta)
  {
    var d := Detach(m, path, meta.inode);
    if path in d.pathToId {
      DetachKeepsMatch(m, path, meta.inode);
    } else {
      RemovePathKeeps(m, path);
      AttachBinds(d, path, meta);
    }
  }
}
