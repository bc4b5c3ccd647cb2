/** When remove_path_tree returns: exactly when no cycle of cached children can be
    reached, and an example of calls that build such a cycle is in MirrorFsCycle. */
module FsMapReturns {
  import opened Wrappers
  import opened Ordered
  import opened FsMapState
  import opened FsMapInvariant
  import opened FsMapTree

  ghost predicate Returns(m: State, path: Path, id: FileId) {
    exists depth :: RemoveTree(m, path, id, depth).Some?
  }

  /** Recursing further than needed changes nothing: the result does not depend on the bound. */
  lemma {:induction false} DepthIrrelevant(m: State, path: Path, id: FileId, depth: nat, deeper: nat)
    requires RemoveTree(m, path, id, depth).Some? && depth <= deeper
    ensures RemoveTree(m, path, id, deeper) == RemoveTree(m, path, id, depth)
    decreases depth, 0, 0
  {
    if id in m.idToPath {
      var e := m.idToPath[id];
      if e.IsDirectory() && e.children.Some? {
        ChildDepthIrrelevant(m, path, e.children.value, Ascending(e.children.value.Keys), depth - 1, deeper - 1);
      }
    }
  }

  lemma {:induction false} ChildDepthIrrelevant(
    m: State, path: Path, children: map<Symbol, FileId>, names: seq<Symbol>, depth: nat, deeper: nat)
    requires forall s | s in names :: s in children
    requires RemoveChildren(m, path, children, names, depth).Some? && depth <= deeper
    ensures RemoveChildren(m, path, children, names, deeper) == RemoveChildren(m, path, children, names, depth)
    decreases depth, |names|
  {
    if names != [] {
      var childPath := path + [names[0]];
      var child := children[names[0]];
      if child in m.idToPath && m.idToPath[child].IsDirectory() {
        DepthIrrelevant(m, childPath, child, depth, deeper);
      }
      ChildDepthIrrelevant(RemoveChild(m, childPath, child, depth).value, path, children, names[1..], depth, deeper);
    }
  }

  // ---- cycles among cached children --------------------------------------

  /** The entry `id` is a live directory, and under `s` it caches a live directory. */
  ghost predicate HasChild(m: State, id: FileId, s: Symbol) {
    && id in m.idToPath && m.idToPath[id].IsDirectory()
    && m.idToPath[id].children.Some? && s in m.idToPath[id].children.value
    && var c := m.idToPath[id].children.value[s]; c in m.idToPath && m.idToPath[c].IsDirectory()
  }

  ghost predicate IsChild(m: State, id: FileId, c: FileId) {
    exists s :: HasChild(m, id, s) && m.idToPath[id].children.value[s] == c
  }

  /** From directory to cached child, starting at `id`. */
  ghost predicate Chain(m: State, id: FileId, chain: seq<FileId>) {
    && chain != [] && chain[0] == id
    && forall k | 0 < k < |chain| :: IsChild(m, chain[k - 1], chain[k])
  }

  ghost predicate Repeats(chain: seq<FileId>) {
    exists i, j :: 0 <= i < j < |chain| && chain[i] == chain[j]
  }

  ghost predicate ReachesCycle(m: State, id: FileId) {
    exists chain :: Chain(m, id, chain) && Repeats(chain)
  }

  /** The directories below `id` nest at most `depth` deep. */
  ghost predicate Within(m: State, id: FileId, depth: nat)
    decreases depth
  {
    id in m.idToPath ==>
      depth > 0 && forall s | HasChild(m, id, s) :: Within(m, m.idToPath[id].children.value[s], depth - 1)
  }

  /** Nesting deeper than there are entries repeats one. */
  lemma {:induction false} DeepChain(m: State, id: FileId, depth: nat) returns (chain: seq<FileId>)
    requires !Within(m, id, depth)
    ensures Chain(m, id, chain) && |chain| == depth + 1 && forall k | 0 <= k < |chain| :: chain[k] in m.idToPath
    decreases depth
  {
    if depth == 0 {
      return [id];
    }
    var s :| HasChild(m, id, s) && !Within(m, m.idToPath[id].children.value[s], depth - 1);
    var rest := DeepChain(m, m.idToPath[id].children.value[s], depth - 1);
    chain := [id] + rest;
    forall k | 0 < k < |chain| ensures IsChild(m, chain[k - 1], chain[k]) {
      if k > 1 {
        assert chain[k - 1] == rest[k - 2] && chain[k] == rest[k - 1];
        assert IsChild(m, rest[k - 2], rest[k - 1]);
      }
    }
  }

  lemma {:induction false} Pigeonhole(chain: seq<FileId>, ids: set<FileId>)
    requires forall k | 0 <= k < |chain| :: chain[k] in ids
    requires !Repeats(chain)
    ensures |chain| <= |ids|
  {
    if chain != [] {
      var rest := chain[1..];
      forall k | 0 <= k < |rest| ensures rest[k] in ids - {chain[0]} {
        assert rest[k] == chain[k + 1];
      }
      Pigeonhole(rest, ids - {chain[0]});
    }
  }

  lemma NoCycleWithin(m: State, id: FileId)
    requires !ReachesCycle(m, id)
    ensures Within(m, id, |m.idToPath|)
  {
    if !Within(m, id, |m.idToPath|) {
      var chain := DeepChain(m, id, |m.idToPath|);
      Pigeonhole(chain, m.idToPath.Keys);
    }
  }

  lemma {:induction false} WithinAlong(m: State, chain: seq<FileId>, depth: nat, k: nat)
    requires k < |chain| && Chain(m, chain[0], chain) && Within(m, chain[0], depth)
    ensures k <= depth && Within(m, chain[k], depth - k)
  {
    if k > 0 {
      WithinAlong(m, chain, depth, k - 1);
      assert IsChild(m, chain[k - 1], chain[k]);
    }
  }

  /** A directory below itself has no bounded nesting. */
  lemma {:induction false} LoopNotWithin(m: State, loop: seq<FileId>, depth: nat)
    requires |loop| > 1 && Chain(m, loop[0], loop) && loop[|loop| - 1] == loop[0]
    ensures !Within(m, loop[0], depth)
    decreases depth
  {
    if Within(m, loop[0], depth) {
      WithinAlong(m, loop, depth, |loop| - 1);
      LoopNotWithin(m, loop, depth - (|loop| - 1));
    }
  }

  lemma CycleNotWithin(m: State, id: FileId, depth: nat)
    requires ReachesCycle(m, id)
    ensures !Within(m, id, depth)
  {
    var chain :| Chain(m, id, chain) && Repeats(chain);
    var i, j :| 0 <= i < j < |chain| && chain[i] == chain[j];
    if Within(m, id, depth) {
      WithinAlong(m, chain, depth, i);
      var loop := chain[i..j + 1];
      forall k | 0 < k < |loop| ensures IsChild(m, loop[k - 1], loop[k]) {
        assert IsChild(m, chain[i + k - 1], chain[i + k]);
      }
      LoopNotWithin(m, loop, depth - i);
    }
  }

  // ---- bounded nesting returns -------------------------------------------

  lemma {:induction false} PrunedWithin(m: State, n: State, root: Path, id: FileId, depth: nat)
    requires Pruned(m, n, root) && Within(m, id, depth)
    ensures Within(n, id, depth)
    decreases depth
  {
    if id in n.idToPath {
      forall s | HasChild(n, id, s) ensures Within(n, n.idToPath[id].children.value[s], depth - 1) {
        assert HasChild(m, id, s);
        PrunedWithin(m, n, root, m.idToPath[id].children.value[s], depth - 1);
      }
    }
  }

  /** Each of the named children that is a live directory nests at most `depth` deep. */
  ghost predicate AllWithin(m: State, children: map<Symbol, FileId>, names: seq<Symbol>, depth: nat)
    requires forall s | s in names :: s in children
  {
    forall s | s in names && children[s] in m.idToPath && m.idToPath[children[s]].IsDirectory() ::
      Within(m, children[s], depth)
  }

  lemma ChildrenWithin(m: State, id: FileId, depth: nat)
    requires id in m.idToPath && m.idToPath[id].IsDirectory() && m.idToPath[id].children.Some? && depth > 0
    ensures var children := m.idToPath[id].children.value;
      Within(m, id, depth) <==> AllWithin(m, children, Ascending(children.Keys), depth - 1)
  {
    var children := m.idToPath[id].children.value;
    assert forall s :: HasChild(m, id, s) <==>
      s in children && children[s] in m.idToPath && m.idToPath[children[s]].IsDirectory();
  }

  lemma {:induction false} WithinReturns(m: State, path: Path, id: FileId, depth: nat)
    requires Inv(m) && Within(m, id, depth)
    ensures RemoveTree(m, path, id, depth).Some?
    decreases depth, 0, 0
  {
    if id in m.idToPath {
      var e := m.idToPath[id];
      if e.IsDirectory() && e.children.Some? {
        ChildrenWithin(m, id, depth);
        AllWithinReturns(m, path, e.children.value, Ascending(e.children.value.Keys), depth - 1);
      }
    }
  }

  lemma {:induction false} AllWithinReturns(
    m: State, path: Path, children: map<Symbol, FileId>, names: seq<Symbol>, depth: nat)
    requires forall s | s in names :: s in children
    requires Inv(m) && AllWithin(m, children, names, depth)
    ensures RemoveChildren(m, path, children, names, depth).Some?
    decreases depth, |names|
  {
    if names != [] {
      var childPath := path + [names[0]];
      var child := children[names[0]];
      assert names[0] in names;
      if child in m.idToPath && m.idToPath[child].IsDirectory() {
        WithinReturns(m, childPath, child, depth);
        TreeRemoval(m, childPath, child, depth);
      } else {
        RemovePathPrunes(m, childPath);
      }
      var next := RemoveChild(m, childPath, child, depth).value;
      forall s | s in names[1..] && children[s] in next.idToPath && next.idToPath[children[s]].IsDirectory()
        ensures Within(next, children[s], depth)
      {
        assert s in names;
        PrunedWithin(m, next, childPath, children[s], depth);
      }
      AllWithinReturns(next, path, children, names[1..], depth);
    }
  }

  // ---- at a path that no cached path extends -----------------------------

  ghost predicate Unused(m: State, path: Path) {
    forall p | p in m.pathToId :: !(path <= p)
  }

  lemma {:induction false} LongerThanAll(paths: set<Path>) returns (n: nat)
    ensures forall p | p in paths :: |p| < n
  {
    if paths == {} {
      return 0;
    }
    var p :| p in paths;
    var k := LongerThanAll(paths - {p});
    n := Max(k, |p| + 1);
    assert forall q | q in paths :: q == p || q in paths - {p};
  }

  lemma UnusedExists(m: State) returns (path: Path)
    ensures Unused(m, path)
  {
    var n := LongerThanAll(m.pathToId.Keys);
    path := seq(n, _ => 0);
  }

  /** There the recursion removes nothing on its way, so it returns only if the nesting is bounded. */
  lemma {:induction false} UnusedTree(m: State, path: Path, id: FileId, depth: nat)
    requires Unused(m, path)
    ensures RemoveTree(m, path, id, depth) == if Within(m, id, depth) then Some(m) else None
    decreases depth, 0, 0
  {
    assert path <= path;
    if id in m.idToPath && depth > 0 {
      var e := m.idToPath[id];
      if e.IsDirectory() && e.children.Some? {
        ChildrenWithin(m, id, depth);
        UnusedChildren(m, path, e.children.value, Ascending(e.children.value.Keys), depth - 1);
      }
    }
  }

  lemma {:induction false} UnusedChildren(
    m: State, path: Path, children: map<Symbol, FileId>, names: seq<Symbol>, depth: nat)
    requires forall s | s in names :: s in children
    requires Unused(m, path)
    ensures RemoveChildren(m, path, children, names, depth)
      == if AllWithin(m, children, names, depth) then Some(m) else None
    decreases depth, |names|
  {
    if names != [] {
      var childPath := path + [names[0]];
      var child := children[names[0]];
      assert path <= childPath && childPath <= childPath && names[0] in names;
      forall p | p in m.pathToId ensures !(childPath <= p) {
        assert childPath <= p ==> path <= p;
      }
      if child in m.idToPath && m.idToPath[child].IsDirectory() {
        UnusedTree(m, childPath, child, depth);
      }
      UnusedChildren(m, path, children, names[1..], depth);
      assert forall s | s in names :: s == names[0] || s in names[1..];
      assert forall s | s in names[1..] :: s in names;
    }
  }

  // ---- exactly when it returns -------------------------------------------

  /** Without a reachable cycle the recursion returns, nesting no deeper than there are entries. */
  lemma NoCycleReturns(m: State, path: Path, id: FileId)
    requires Inv(m) && !ReachesCycle(m, id)
    ensures RemoveTree(m, path, id, |m.idToPath|).Some?
  {
    NoCycleWithin(m, id);
    WithinReturns(m, path, id, |m.idToPath|);
  }

  /** remove_path_tree returns on an id whatever path it is given if and only if no
      cycle of cached children can be reached from that id. */
  lemma ReturnsIff(m: State, id: FileId)
    requires Inv(m)
    ensures (forall path :: Returns(m, path, id)) <==> !ReachesCycle(m, id)
  {
    if ReachesCycle(m, id) {
      var path := UnusedExists(m);
      forall depth ensures RemoveTree(m, path, id, depth).None? {
        UnusedTree(m, path, id, depth);
        CycleNotWithin(m, id, depth);
      }
      assert !Returns(m, path, id);
    } else {
      forall path ensures Returns(m, path, id) {
        NoCycleReturns(m, path, id);
      }
    }
  }

  // ---- at any path -------------------------------------------------------

  /** The child the loop visits first. */
  ghost predicate FirstChild(m: State, id: FileId, c: FileId) {
    && id in m.idToPath && m.idToPath[id].children.Some?
    && var children := m.idToPath[id].children.value;
    && children.Keys != {} && HasChild(m, id, LeastSymbol(children.Keys)) && children[LeastSymbol(children.Keys)] == c
  }

  /** A cycle of first children is entered before anything is removed, so it never
      returns at any path. */
  lemma {:induction false} FirstCycleNeverReturns(m: State, loop: seq<FileId>, k: nat, path: Path, depth: nat)
    requires |loop| > 1 && loop[|loop| - 1] == loop[0] && k < |loop| - 1
    requires forall i | 0 <= i < |loop| - 1 :: FirstChild(m, loop[i], loop[i + 1])
    ensures RemoveTree(m, path, loop[k], depth).None?
    decreases depth
  {
    assert FirstChild(m, loop[k], loop[k + 1]);
    if depth > 0 {
      var children := m.idToPath[loop[k]].children.value;
      var names := Ascending(children.Keys);
      assert names[0] == LeastSymbol(children.Keys);
      FirstCycleNeverReturns(m, loop, if k + 2 < |loop| then k + 1 else 0, path + [names[0]], depth - 1);
      assert RemoveChild(m, path + [names[0]], children[names[0]], depth - 1).None?;
    }
  }

  // ---- at one path, from which the directories are seen elsewhere too ------

  ghost predicate ListedOutside(m: State, id: FileId, root: Path) {
    exists p :: Lists(m, id, p) && !(root <= p)
  }

  /** Such a directory stays, with its children, whatever is removed below `root`. */
  lemma ChildStays(m: State, n: State, root: Path, id: FileId, s: Symbol)
    requires Inv(n) && Pruned(m, n, root) && HasChild(m, id, s)
    requires ListedOutside(m, id, root) && ListedOutside(m, m.idToPath[id].children.value[s], root)
    ensures HasChild(n, id, s) && n.idToPath[id].children == m.idToPath[id].children
  {
    var p :| Lists(m, id, p) && !(root <= p);
    var q :| Lists(m, m.idToPath[id].children.value[s], q) && !(root <= q);
    assert Lists(n, id, p) && Lists(n, m.idToPath[id].children.value[s], q);
  }

  /** A chain that comes back to its own element `i` is followed for ever. */
  ghost predicate Lasso(m: State, chain: seq<FileId>, i: nat, root: Path) {
    && i < |chain| - 1 && Chain(m, chain[0], chain) && chain[|chain| - 1] == chain[i]
    && forall k | 0 <= k < |chain| :: ListedOutside(m, chain[k], root)
  }

  lemma LassoNext(m: State, n: State, root: Path, chain: seq<FileId>, i: nat, k: nat) returns (s: Symbol)
    requires Lasso(m, chain, i, root) && k < |chain| - 1 && Inv(n) && Pruned(m, n, root)
    ensures HasChild(n, chain[k], s) && n.idToPath[chain[k]].children.value[s] == chain[k + 1]
  {
    assert IsChild(m, chain[k], chain[k + 1]);
    s :| HasChild(m, chain[k], s) && m.idToPath[chain[k]].children.value[s] == chain[k + 1];
    ChildStays(m, n, root, chain[k], s);
  }

  lemma NamesOf(m: State, id: FileId, s: Symbol) returns (children: map<Symbol, FileId>, names: seq<Symbol>)
    requires HasChild(m, id, s)
    ensures m.idToPath[id].children == Some(children) && names == Ascending(children.Keys)
    ensures s in names && forall t | t in names :: t in children
  {
    children := m.idToPath[id].children.value;
    names := Ascending(children.Keys);
  }

  lemma StuckChildren(m: State, path: Path, id: FileId, depth: nat)
    requires depth > 0 && id in m.idToPath && m.idToPath[id].IsDirectory() && m.idToPath[id].children.Some?
    requires var children := m.idToPath[id].children.value;
      RemoveChildren(m, path, children, Ascending(children.Keys), depth - 1).None?
    ensures RemoveTree(m, path, id, depth).None?
  {
  }

  lemma {:induction false} LassoNeverReturns(
    m: State, n: State, root: Path, path: Path, chain: seq<FileId>, i: nat, k: nat, depth: nat)
    requires Lasso(m, chain, i, root) && k < |chain| - 1 && root <= path && Inv(n) && Pruned(m, n, root)
    ensures RemoveTree(n, path, chain[k], depth).None?
    decreases depth, 0
  {
    var s := LassoNext(m, n, root, chain, i, k);
    if depth > 0 {
      var children, names := NamesOf(n, chain[k], s);
      LassoBelow(m, n, root, path, chain, i, k + 1, children, names, s, depth - 1);
      StuckChildren(n, path, chain[k], depth);
    }
  }

  lemma PrunedBelow(m: State, n: State, root: Path, path: Path)
    requires root <= path && Pruned(m, n, path)
    ensures Pruned(m, n, root)
  {
    assert forall p | p in m.pathToId && path <= p :: root <= p;
  }

  lemma LassoLive(m: State, n: State, root: Path, chain: seq<FileId>, i: nat, k: nat)
    requires Lasso(m, chain, i, root) && 0 < k < |chain| && Inv(n) && Pruned(m, n, root)
    ensures chain[k] in n.idToPath && n.idToPath[chain[k]].IsDirectory()
  {
    assert IsChild(m, chain[k - 1], chain[k]);
    var p :| Lists(m, chain[k], p) && !(root <= p);
    assert Lists(n, chain[k], p);
  }

  /** The loop over the children gets stuck at the next element of the chain, if not before. */
  lemma {:induction false} LassoBelow(
    m: State, n: State, root: Path, path: Path, chain: seq<FileId>, i: nat, k: nat,
    children: map<Symbol, FileId>, names: seq<Symbol>, s: Symbol, depth: nat)
    requires Lasso(m, chain, i, root) && 0 < k < |chain| && root <= path && Inv(n) && Pruned(m, n, root)
    requires (forall t | t in names :: t in children) && s in names && children[s] == chain[k]
    ensures RemoveChildren(n, path, children, names, depth).None?
    decreases depth, 1, |names|
  {
    var childPath := path + [names[0]];
    var child := children[names[0]];
    if names[0] == s {
      LassoLive(m, n, root, chain, i, k);
      LassoNeverReturns(m, n, root, childPath, chain, i, if k == |chain| - 1 then i else k, depth);
    } else if RemoveChild(n, childPath, child, depth).Some? {
      var next := RemoveChild(n, childPath, child, depth).value;
      if child in n.idToPath && n.idToPath[child].IsDirectory() {
        TreeRemoval(n, childPath, child, depth);
      } else {
        RemovePathPrunes(n, childPath);
      }
      PrunedBelow(n, next, root, childPath);
      PrunedTransitive(m, n, next, root);
      LassoBelow(m, next, root, path, chain, i, k, children, names[1..], s, depth);
    }
  }

  /** Every directory that can be reached from `id` has a path outside `root`. */
  ghost predicate ReachesOutside(m: State, id: FileId, root: Path) {
    forall chain, k | Chain(m, id, chain) && 0 <= k < |chain| :: ListedOutside(m, chain[k], root)
  }

  /** At one path: when all directories reached have a path elsewhere, the recursion
      returns there if and only if no cycle can be reached. */
  lemma ReturnsAtIff(m: State, path: Path, id: FileId)
    requires Inv(m) && ReachesOutside(m, id, path)
    ensures Returns(m, path, id) <==> !ReachesCycle(m, id)
  {
    if ReachesCycle(m, id) {
      var chain :| Chain(m, id, chain) && Repeats(chain);
      var i, j :| 0 <= i < j < |chain| && chain[i] == chain[j];
      var lasso := chain[..j + 1];
      forall k | 0 < k < |lasso| ensures IsChild(m, lasso[k - 1], lasso[k]) {
        assert IsChild(m, chain[k - 1], chain[k]);
      }
      assert Chain(m, id, lasso) && Lasso(m, lasso, i, path);
      forall depth ensures RemoveTree(m, path, id, depth).None? {
        LassoNeverReturns(m, m, path, path, lasso, i, 0, depth);
      }
    } else {
      NoCycleReturns(m, path, id);
    }
  }
}
