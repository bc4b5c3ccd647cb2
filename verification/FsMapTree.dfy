/** remove_path_tree: what it removes and what it keeps. */
module FsMapTree {
  import opened Wrappers
  import opened Ordered
  import opened FsMapState
  import opened FsMapInvariant

  ghost predicate SameNode(e: FSEntry, f: FSEntry) {
    && f.fsmeta == e.fsmeta && f.childrenMeta == e.childrenMeta && f.children == e.children
    && f.aliases <= e.aliases
  }

  /** `n` is `m` with only paths under `root` removed: every other path and alias
      survives, so an id with an alias outside the subtree stays live. */
  ghost predicate Pruned(m: State, n: State, root: Path) {
    && (forall p | p in n.pathToId :: p in m.pathToId && m.pathToId[p] == n.pathToId[p])
    && (forall p | p in m.pathToId && !(root <= p) :: p in n.pathToId)
    && (forall id | id in n.idToPath :: id in m.idToPath && SameNode(m.idToPath[id], n.idToPath[id]))
    && (forall id | id in n.idToPath && !(root <= m.idToPath[id].name) :: n.idToPath[id].name == m.idToPath[id].name)
    && (forall id, p | Lists(m, id, p) && !(root <= p) :: Lists(n, id, p))
  }

  /** Everything remove_path and remove_path_tree guarantee about one call. */
  ghost predicate Removal(m: State, n: State, root: Path) {
    Kept(m, n) && Pruned(m, n, root)
  }

  lemma PrunedTransitive(a: State, b: State, c: State, root: Path)
    requires Pruned(a, b, root) && Pruned(b, c, root)
    ensures Pruned(a, c, root)
  {
    forall p | p in a.pathToId && !(root <= p) ensures p in c.pathToId {
      assert p in b.pathToId;
    }
    forall id, p | Lists(a, id, p) && !(root <= p) ensures Lists(c, id, p) {
      assert Lists(b, id, p);
    }
  }

  lemma PrunedWiden(m: State, n: State, root: Path, name: Symbol)
    requires Pruned(m, n, root + [name])
    ensures Pruned(m, n, root)
  {
    assert root <= root + [name];
  }

  lemma RemovalTransitive(a: State, b: State, c: State, root: Path)
    requires Removal(a, b, root) && Removal(b, c, root)
    ensures Removal(a, c, root)
  {
    PrunedTransitive(a, b, c, root);
    KeptTransitive(a, b, c);
  }

  lemma PathPruned(m: State, path: Path)
    ensures Pruned(m, RemovePath(m, path), path)
  {
    var n := RemovePath(m, path);
    assert path <= path;
    forall id, p | Lists(m, id, p) && !(path <= p) ensures Lists(n, id, p) {
      if path in m.pathToId && m.pathToId[path] == id {
        assert p in m.idToPath[id].aliases - {path};
      }
    }
  }

  lemma RemovePathPrunes(m: State, path: Path)
    requires Inv(m)
    ensures Removal(m, RemovePath(m, path), path)
  {
    RemovePathKeeps(m, path);
    PathPruned(m, path);
  }

  lemma {:induction false} TreeRemoval(m: State, path: Path, id: FileId, depth: nat)
    requires Inv(m) && RemoveTree(m, path, id, depth).Some?
    ensures Removal(m, RemoveTree(m, path, id, depth).value, path)
    ensures id in m.idToPath ==> path !in RemoveTree(m, path, id, depth).value.pathToId
    decreases depth, 0, 0
  {
    if id in m.idToPath {
      var e := m.idToPath[id];
      if e.IsDirectory() && e.children.Some? {
        var names := Ascending(e.children.value.Keys);
        ChildrenRemoval(m, path, e.children.value, names, depth - 1);
        var pruned := RemoveChildren(m, path, e.children.value, names, depth - 1).value;
        RemovePathPrunes(pruned, path);
        RemovePathUnmaps(pruned, path);
        RemovalTransitive(m, pruned, RemovePath(pruned, path), path);
      } else {
        RemovePathPrunes(m, path);
        RemovePathUnmaps(m, path);
      }
    }
  }

  lemma {:induction false} ChildrenRemoval(
    m: State, path: Path, children: map<Symbol, FileId>, names: seq<Symbol>, depth: nat)
    requires forall s | s in names :: s in children
    requires Inv(m) && RemoveChildren(m, path, children, names, depth).Some?
    ensures Removal(m, RemoveChildren(m, path, children, names, depth).value, path)
    decreases depth, |names|
  {
    if names != [] {
      var childPath := path + [names[0]];
      var child := children[names[0]];
      var next := RemoveChild(m, childPath, child, depth).value;
      if child in m.idToPath && m.idToPath[child].IsDirectory() {
        TreeRemoval(m, childPath, child, depth);
      } else {
        RemovePathPrunes(m, childPath);
      }
      PrunedWiden(m, next, path, names[0]);
      ChildrenRemoval(next, path, children, names[1..], depth);
      RemovalTransitive(m, next, RemoveChildren(next, path, children, names[1..], depth).value, path);
    }
  }
}
