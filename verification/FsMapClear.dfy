/** What remove_path_tree unmaps: the paths it reaches through the cached children, all
    of them when the cached children agree with the path map, and no other path. */
module FsMapClear {
  import opened Wrappers
  import opened Ordered
  import opened FsMapState
  import opened FsMapInvariant
  import opened FsMapTree

  /** The id at the end of a chain of cached children below `id`. */
  ghost function Follow(m: State, id: FileId, chain: Path): Option<FileId>
    decreases |chain|
  {
    if chain == [] then Some(id)
    else if id in m.idToPath && m.idToPath[id].IsDirectory() && chain[0] in KnownChildren(m.idToPath[id])
    then Follow(m, m.idToPath[id].children.value[chain[0]], chain[1..])
    else None
  }

  /** Every path reached through cached children from `id` at `path` is mapped to the id reached. */
  ghost predicate Agrees(m: State, path: Path, id: FileId) {
    forall chain | Follow(m, id, chain).Some? :: MapsTo(m, path + chain, Follow(m, id, chain).value)
  }

  /** Every path that was reached is unmapped. */
  ghost predicate Cleared(m: State, n: State, path: Path, id: FileId) {
    forall chain | Follow(m, id, chain).Some? :: path + chain !in n.pathToId
  }

  lemma AgreesChild(m: State, path: Path, id: FileId, s: Symbol)
    requires Agrees(m, path, id)
    requires id in m.idToPath && m.idToPath[id].IsDirectory() && s in KnownChildren(m.idToPath[id])
    ensures Agrees(m, path + [s], m.idToPath[id].children.value[s])
  {
    var c := m.idToPath[id].children.value[s];
    forall chain | Follow(m, c, chain).Some? ensures MapsTo(m, path + [s] + chain, Follow(m, c, chain).value) {
      assert ([s] + chain)[1..] == chain;
      assert Follow(m, id, [s] + chain) == Follow(m, c, chain);
      assert path + ([s] + chain) == path + [s] + chain;
    }
  }

  lemma AgreesHere(m: State, path: Path, id: FileId)
    requires Inv(m) && Agrees(m, path, id)
    ensures MapsTo(m, path, id) && id in m.idToPath
  {
    assert Follow(m, id, []) == Some(id) && path + [] == path;
    assert Lists(m, m.pathToId[path], path);
  }

  ghost predicate AllAgree(m: State, path: Path, children: map<Symbol, FileId>, names: seq<Symbol>)
    requires forall s | s in names :: s in children
  {
    forall s | s in names :: Agrees(m, path + [s], children[s])
  }

  ghost predicate AllCleared(m: State, n: State, path: Path, children: map<Symbol, FileId>, names: seq<Symbol>)
    requires forall s | s in names :: s in children
  {
    forall s | s in names :: Cleared(m, n, path + [s], children[s])
  }

  lemma AgreesChildren(m: State, path: Path, id: FileId, children: map<Symbol, FileId>, names: seq<Symbol>)
    requires Agrees(m, path, id) && forall s | s in names :: s in children
    requires id in m.idToPath && m.idToPath[id].IsDirectory() && m.idToPath[id].children == Some(children)
    ensures AllAgree(m, path, children, names)
  {
    forall s | s in names ensures Agrees(m, path + [s], children[s]) {
      AgreesChild(m, path, id, s);
    }
  }

  /** What is left of a tree is part of what was there. */
  lemma {:induction false} FollowPruned(m: State, n: State, root: Path, id: FileId, chain: Path)
    requires Pruned(m, n, root) && Follow(n, id, chain).Some?
    ensures Follow(m, id, chain) == Follow(n, id, chain)
    decreases |chain|
  {
    if chain != [] {
      FollowPruned(m, n, root, n.idToPath[id].children.value[chain[0]], chain[1..]);
    }
  }

  /** While the paths of a tree are mapped its entries are live, so it can still be followed. */
  lemma {:induction false} FollowStays(m: State, n: State, root: Path, path: Path, id: FileId, chain: Path)
    requires Inv(n) && Pruned(m, n, root) && Agrees(m, path, id) && Follow(m, id, chain).Some?
    requires forall p | p in m.pathToId && path <= p :: p in n.pathToId
    ensures Follow(n, id, chain) == Follow(m, id, chain)
    decreases |chain|
  {
    if chain != [] {
      assert Follow(m, id, []) == Some(id) && path + [] == path;
      assert MapsTo(m, path, id) && Lists(n, id, path);
      AgreesChild(m, path, id, chain[0]);
      forall p | p in m.pathToId && path + [chain[0]] <= p ensures p in n.pathToId {
        assert path <= p;
      }
      FollowStays(m, n, root, path + [chain[0]], m.idToPath[id].children.value[chain[0]], chain[1..]);
    }
  }

  lemma SiblingsApart(path: Path, s: Symbol, t: Symbol, p: Path)
    requires s != t && path + [s] <= p
    ensures !(path + [t] <= p)
  {
    assert p[|path|] == (path + [s])[|path|] == s && (path + [t])[|path|] == t;
  }

  /** Removing one child leaves the trees of its siblings as they were. */
  lemma AgreesKept(m: State, n: State, path: Path, s: Symbol, t: Symbol, id: FileId)
    requires Pruned(m, n, path + [t]) && s != t && Agrees(m, path + [s], id)
    ensures Agrees(n, path + [s], id)
  {
    forall chain | Follow(n, id, chain).Some? ensures MapsTo(n, path + [s] + chain, Follow(n, id, chain).value) {
      FollowPruned(m, n, path + [t], id, chain);
      assert MapsTo(m, path + [s] + chain, Follow(m, id, chain).value);
      SiblingsApart(path, s, t, path + [s] + chain);
    }
  }

  /** A sibling cleared later counts as cleared from the start. */
  lemma ClearedEarlier(m: State, next: State, n: State, path: Path, s: Symbol, t: Symbol, id: FileId)
    requires Inv(next) && Pruned(m, next, path + [t]) && s != t && Agrees(m, path + [s], id)
    requires Cleared(next, n, path + [s], id)
    ensures Cleared(m, n, path + [s], id)
  {
    forall p | p in m.pathToId && path + [s] <= p ensures p in next.pathToId {
      SiblingsApart(path, s, t, p);
    }
    forall chain | Follow(m, id, chain).Some? ensures path + [s] + chain !in n.pathToId {
      FollowStays(m, next, path + [t], path + [s], id, chain);
    }
  }

  /** A directory is cleared once its children are and its own path is unmapped. */
  lemma DirectoryCleared(
    m: State, pruned: State, path: Path, id: FileId, children: map<Symbol, FileId>, names: seq<Symbol>)
    requires id in m.idToPath && m.idToPath[id].IsDirectory() && m.idToPath[id].children == Some(children)
    requires (forall s :: s in names <==> s in children) && AllCleared(m, pruned, path, children, names)
    ensures Cleared(m, RemovePath(pruned, path), path, id)
  {
    RemovePathUnmaps(pruned, path);
    forall chain | Follow(m, id, chain).Some? ensures path + chain !in RemovePath(pruned, path).pathToId {
      if chain == [] {
        assert path + [] == path;
      } else {
        assert chain[0] in names;
        assert Cleared(m, pruned, path + [chain[0]], children[chain[0]]);
        assert path + [chain[0]] + chain[1..] == path + chain;
      }
    }
  }

  lemma LeafCleared(m: State, path: Path, id: FileId)
    requires !(id in m.idToPath && m.idToPath[id].IsDirectory() && m.idToPath[id].children.Some?)
    ensures Cleared(m, RemovePath(m, path), path, id)
  {
    RemovePathUnmaps(m, path);
    assert path + [] == path;
    assert forall chain | Follow(m, id, chain).Some? :: chain == [];
  }

  lemma TreeOfChildren(m: State, path: Path, id: FileId, depth: nat)
    returns (children: map<Symbol, FileId>, names: seq<Symbol>, pruned: State)
    requires id in m.idToPath && m.idToPath[id].IsDirectory() && m.idToPath[id].children.Some?
    requires RemoveTree(m, path, id, depth).Some?
    ensures m.idToPath[id].children == Some(children) && Increasing(names) && depth > 0
    ensures forall s :: s in names <==> s in children
    ensures RemoveChildren(m, path, children, names, depth - 1) == Some(pruned)
    ensures RemoveTree(m, path, id, depth) == Some(RemovePath(pruned, path))
  {
    children := m.idToPath[id].children.value;
    names := Ascending(children.Keys);
    AscendingSorted(children.Keys);
    pruned := RemoveChildren(m, path, children, names, depth - 1).value;
  }

  /** Whatever remove_path_tree can reach through cached children is gone afterwards. */
  lemma {:induction false} TreeClears(m: State, path: Path, id: FileId, depth: nat)
    requires Inv(m) && Agrees(m, path, id) && RemoveTree(m, path, id, depth).Some?
    ensures Cleared(m, RemoveTree(m, path, id, depth).value, path, id)
    decreases depth, 0, 0
  {
    AgreesHere(m, path, id);
    if m.idToPath[id].IsDirectory() && m.idToPath[id].children.Some? {
      var children, names, pruned := TreeOfChildren(m, path, id, depth);
      AgreesChildren(m, path, id, children, names);
      ChildrenClear(m, path, children, names, depth - 1);
      DirectoryCleared(m, pruned, path, id, children, names);
    } else {
      LeafCleared(m, path, id);
    }
  }

  lemma {:induction false} ChildrenClear(
    m: State, path: Path, children: map<Symbol, FileId>, names: seq<Symbol>, depth: nat)
    requires forall s | s in names :: s in children
    requires Increasing(names)
    requires Inv(m) && RemoveChildren(m, path, children, names, depth).Some?
    requires AllAgree(m, path, children, names)
    ensures AllCleared(m, RemoveChildren(m, path, children, names, depth).value, path, children, names)
    decreases depth, |names|
  {
    if names != [] {
      var t := names[0];
      var next := RemoveChild(m, path + [t], children[t], depth).value;
      var n := RemoveChildren(m, path, children, names, depth).value;
      assert t in names;
      ChildClears(m, path + [t], children[t], depth);
      forall s | s in names[1..] ensures s in names && s != t && Agrees(next, path + [s], children[s]) {
        AgreesKept(m, next, path, s, t, children[s]);
      }
      ChildrenClear(next, path, children, names[1..], depth);
      ChildrenRemoval(next, path, children, names[1..], depth);
      forall s | s in names ensures Cleared(m, n, path + [s], children[s]) {
        if s != t {
          assert s in names[1..];
          ClearedEarlier(m, next, n, path, s, t, children[s]);
        }
      }
    }
  }

  lemma ChildClears(m: State, path: Path, id: FileId, depth: nat)
    requires Inv(m) && Agrees(m, path, id) && RemoveChild(m, path, id, depth).Some?
    ensures var n := RemoveChild(m, path, id, depth).value; Cleared(m, n, path, id) && Removal(m, n, path)
    decreases depth, 0, 1
  {
    if id in m.idToPath && m.idToPath[id].IsDirectory() {
      TreeClears(m, path, id, depth);
      TreeRemoval(m, path, id, depth);
    } else {
      RemovePathPrunes(m, path);
      LeafCleared(m, path, id);
    }
  }

  // ---- nothing else goes -------------------------------------------------

  /** The path `p` is reached from `id` at `path` through cached children. */
  ghost predicate ReachedFrom(m: State, path: Path, id: FileId, p: Path) {
    path <= p && Follow(m, id, p[|path|..]).Some?
  }

  lemma ReachedThroughChild(m: State, path: Path, id: FileId, s: Symbol, p: Path)
    requires id in m.idToPath && m.idToPath[id].IsDirectory() && s in KnownChildren(m.idToPath[id])
    requires ReachedFrom(m, path + [s], m.idToPath[id].children.value[s], p)
    ensures ReachedFrom(m, path, id, p)
  {
    var chain := p[|path|..];
    assert p[..|path| + 1] == path + [s] && p[|path|] == s;
    assert path <= p && chain[0] == s && chain[1..] == p[|path + [s]|..];
  }

  lemma {:induction false} TreeUnmapsReached(m: State, path: Path, id: FileId, depth: nat, p: Path)
    requires Inv(m) && RemoveTree(m, path, id, depth).Some?
    requires p in m.pathToId && p !in RemoveTree(m, path, id, depth).value.pathToId
    ensures ReachedFrom(m, path, id, p)
    decreases depth, 0, 0
  {
    if m.idToPath[id].IsDirectory() && m.idToPath[id].children.Some? {
      var children, names, pruned := TreeOfChildren(m, path, id, depth);
      if p !in pruned.pathToId {
        var s := ChildrenUnmapReached(m, path, children, names, depth - 1, p);
        ReachedThroughChild(m, path, id, s, p);
      }
    }
  }

  lemma {:induction false} ChildrenUnmapReached(
    m: State, path: Path, children: map<Symbol, FileId>, names: seq<Symbol>, depth: nat, p: Path) returns (s: Symbol)
    requires forall s | s in names :: s in children
    requires Inv(m) && RemoveChildren(m, path, children, names, depth).Some?
    requires p in m.pathToId && p !in RemoveChildren(m, path, children, names, depth).value.pathToId
    ensures s in names && ReachedFrom(m, path + [s], children[s], p)
    decreases depth, |names|
  {
    var childPath := path + [names[0]];
    var child := children[names[0]];
    var next := RemoveChild(m, childPath, child, depth).value;
    if p !in next.pathToId {
      if child in m.idToPath && m.idToPath[child].IsDirectory() {
        TreeUnmapsReached(m, childPath, child, depth, p);
      }
      s := names[0];
    } else {
      if child in m.idToPath && m.idToPath[child].IsDirectory() {
        TreeRemoval(m, childPath, child, depth);
      } else {
        RemovePathPrunes(m, childPath);
      }
      s := ChildrenUnmapReached(next, path, children, names[1..], depth, p);
      FollowPruned(m, next, childPath, children[s], p[|path + [s]|..]);
    }
  }

  /** When the cached children agree with the path map, exactly the paths reached are unmapped. */
  lemma TreeUnmapsIff(m: State, path: Path, id: FileId, depth: nat, p: Path)
    requires Inv(m) && Agrees(m, path, id) && RemoveChild(m, path, id, depth).Some? && p in m.pathToId
    ensures p !in RemoveChild(m, path, id, depth).value.pathToId <==> ReachedFrom(m, path, id, p)
  {
    ChildClears(m, path, id, depth);
    if ReachedFrom(m, path, id, p) {
      assert path + p[|path|..] == p;
    } else if id in m.idToPath && m.idToPath[id].IsDirectory() {
      if p !in RemoveTree(m, path, id, depth).value.pathToId {
        TreeUnmapsReached(m, path, id, depth, p);
      }
    }
  }
}
