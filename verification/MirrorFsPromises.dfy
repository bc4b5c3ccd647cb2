/** What a client may rely on after lookup, rename and readdir. */
module MirrorFsPromises {
  import opened Wrappers
  import opened Ordered
  import opened FsMapState
  import opened FsMapInvariant
  import opened FsMapTree
  import opened FsMapClear
  import opened FsMapRename
  import opened FsMapRefresh
  import opened MirrorFsCalls
  import opened MirrorFsRuns

  // ---- lookup ------------------------------------------------------------

  /** A refresh that keeps `id` leaves every other entry as it was. */
  lemma RefreshElsewhere(m: State, id: FileId, probe: Probe, depth: nat, other: FileId)
    requires Inv(m) && id in m.idToPath && RefreshEntry(m, id, probe, depth).Some?
    requires RefreshEntry(m, id, probe, depth).value.1 != Ok(Delete) && other != id
    ensures var n := RefreshEntry(m, id, probe, depth).value.0;
      (other in n.idToPath <==> other in m.idToPath) && (other in m.idToPath ==> n.idToPath[other] == m.idToPath[other])
  {
  }

  /** An id that lookup returns is live, and the name it was asked for resolves to
      it afterwards, unless it is the directory's own id and the refresh gave the
      directory another name. */
  lemma LookupResolves(m: State, dir: FileId, name: Symbol, disk: LookupDisk, depth: nat)
    requires Inv(m) && Lookup(m, dir, name, disk, depth).Some?
    ensures var (n, r) := Lookup(m, dir, name, disk, depth).value;
      r.Ok? ==>
        && r.value in n.idToPath && FindChild(n, dir, name).Ok?
        && (FindChild(n, dir, name) == r ||
            (r.value == dir && dir in m.idToPath && n.idToPath[dir].name != m.idToPath[dir].name))
  {
    var (n, r) := Lookup(m, dir, name, disk, depth).value;
    LookupKeeps(m, dir, name, disk, depth);
    var hit := FindChild(m, dir, name);
    if hit.Ok? && hit.value in m.idToPath {
      var o := RefreshEntry(m, hit.value, disk.child, depth).value;
      if r.Ok? && o.1 != Ok(Delete) {
        RefreshConfirms(m, hit.value, disk.child, depth);
        RefreshUnmaps(m, hit.value, disk.child, depth);
        if hit.value != dir {
          RefreshElsewhere(m, hit.value, disk.child, depth, dir);
        }
      }
    }
    if FindChild(n, dir, name).Ok? {
      assert Lists(n, n.pathToId[n.idToPath[dir].name + [name]], n.idToPath[dir].name + [name]);
    }
  }

  /** The refresh confirms `dir`, and `name` is cached under the first of its
      aliases that exists. */
  ghost predicate FoundElsewhere(m: State, dir: FileId, name: Symbol, probe: Probe)
    requires dir in m.idToPath
  {
    var present := m.idToPath[dir].aliases * probe.present;
    && present != {} && probe.meta.Some?
    && dir in m.idToInode && m.idToInode[dir] == probe.meta.value.inode
    && m.idToPath[dir].fsmeta.ftype == probe.meta.value.ftype
    && var path := Least(present) + [name];
    && path in m.pathToId && (path in m.idToPath[dir].aliases ==> path in probe.present)
  }

  /** A name the disk does not have is found only if it is cached as the directory's
      own id, and then exactly if it is cached under the directory's next name too. */
  lemma LookupMissing(m: State, dir: FileId, name: Symbol, disk: LookupDisk, depth: nat)
    requires Inv(m) && Lookup(m, dir, name, disk, depth).Some?
    requires dir in m.idToPath && m.idToPath[dir].name + [name] !in disk.child.present && !disk.exists_
    ensures Lookup(m, dir, name, disk, depth).value.1.Ok? <==>
      FindChild(m, dir, name) == Ok(dir) && FoundElsewhere(m, dir, name, disk.child)
  {
    var hit := FindChild(m, dir, name);
    if hit.Ok? {
      assert Lists(m, hit.value, m.idToPath[dir].name + [name]);
      if hit.value != dir {
        var o := RefreshEntry(m, hit.value, disk.child, depth).value;
        if o.1 != Ok(Delete) {
          RefreshElsewhere(m, hit.value, disk.child, depth, dir);
          RefreshUnmaps(m, hit.value, disk.child, depth);
        }
      }
    }
  }

  /** Then the directory's own id is returned, while the name now resolves to
      whatever is cached under the directory's next name. */
  lemma LookupOwnId(m: State, dir: FileId, name: Symbol, disk: LookupDisk, depth: nat)
    requires Inv(m) && FindChild(m, dir, name) == Ok(dir) && FoundElsewhere(m, dir, name, disk.child)
    ensures Lookup(m, dir, name, disk, depth).Some? && Lookup(m, dir, name, disk, depth).value.1 == Ok(dir)
    ensures var present := m.idToPath[dir].aliases * disk.child.present;
      FindChild(Lookup(m, dir, name, disk, depth).value.0, dir, name) == Ok(m.pathToId[Least(present) + [name]])
  {
    var path := Least(m.idToPath[dir].aliases * disk.child.present) + [name];
    var kept := KeepPresent(m, dir, disk.child.present);
    assert path in kept.pathToId && kept.pathToId[path] == m.pathToId[path];
  }

  /** Some disk answer of this very call shows the inode the id stands for. */
  ghost predicate Witnessed(disk: LookupDisk, name: Symbol, inode: InodeKey) {
    || (disk.child.meta.Some? && disk.child.meta.value.inode == inode)
    || (disk.scan.Opened? && exists i :: ListedAs(disk.scan.items, i, name, inode))
  }

  ghost predicate ListedAs(items: seq<Listed>, i: int, name: Symbol, inode: InodeKey) {
    0 <= i < |items| && items[i].name == name && items[i].meta.Some? && items[i].meta.value.inode == inode
  }

  lemma {:induction false} LastListed(items: seq<Listed>, s: Symbol) returns (i: nat)
    requires Named(items, s)
    ensures i < |items| && items[i].name == s && forall j | i < j < |items| :: items[j].name != items[i].name
    decreases items
  {
    var last := |items| - 1;
    if items[last].name == s {
      i := last;
    } else {
      var k :| 0 <= k < |items| && items[k].name == s;
      assert items[..last][k].name == s;
      i := LastListed(items[..last], s);
      forall j | i < j < |items| ensures items[j].name != items[i].name {
        if j < last {
          assert items[..last][j] == items[j];
        }
      }
    }
  }

  ghost predicate SameKind(m: State, n: State, other: FileId) {
    other in n.idToPath ==>
      && other in m.idToPath && n.idToPath[other].fsmeta.ftype == m.idToPath[other].fsmeta.ftype
      && n.idToPath[other].children == m.idToPath[other].children
  }

  lemma DeletionKeepsKinds(m: State, id: FileId, present: set<Path>, depth: nat, other: FileId)
    requires Inv(m) && id in m.idToPath && DeleteEntry(KeepPresent(m, id, present), id, depth).Some?
    ensures SameKind(m, DeleteEntry(KeepPresent(m, id, present), id, depth).value, other)
  {
    KeepPresentKeeps(m, id, present);
    DeleteEntryRemoval(KeepPresent(m, id, present), id, depth);
  }

  lemma RefreshKeepsKinds(m: State, id: FileId, probe: Probe, depth: nat, other: FileId)
    requires Inv(m) && id in m.idToPath && RefreshEntry(m, id, probe, depth).Some?
    ensures SameKind(m, RefreshEntry(m, id, probe, depth).value.0, other)
  {
    RefreshShape(m, id, probe, depth);
    if DeleteEntry(KeepPresent(m, id, probe.present), id, depth).Some? {
      DeletionKeepsKinds(m, id, probe.present, depth, other);
    }
  }

  /** The relisting could not correct what `m` has cached as `id` under the name
      `dir` has in `n`: `dir` was no directory, or the scan missed the name and it
      was not among the cached children. */
  ghost predicate Leftover(m: State, n: State, dir: FileId, name: Symbol, scan: Scan, id: FileId) {
    && dir in m.idToPath && dir in n.idToPath
    && var path := n.idToPath[dir].name + [name];
    && path in m.pathToId && m.pathToId[path] == id
    && (!m.idToPath[dir].IsDirectory() ||
        (scan.Opened? && !Named(scan.items, name) && name !in KnownChildren(m.idToPath[dir])))
  }

  lemma LookupOnDiskFresh(m: State, dir: FileId, name: Symbol, disk: LookupDisk, depth: nat)
    requires Inv(m) && LookupOnDisk(m, dir, name, disk, depth).Some?
    ensures var (n, r) := LookupOnDisk(m, dir, name, disk, depth).value;
      r.Ok? ==>
        && r.value in n.idToInode
        && (Witnessed(disk, name, n.idToInode[r.value]) || Leftover(m, n, dir, name, disk.scan, r.value))
  {
    var (n, r) := LookupOnDisk(m, dir, name, disk, depth).value;
    if r.Ok? {
      RefreshKeeps(m, dir, disk.dir, depth);
      RefreshUnmaps(m, dir, disk.dir, depth);
      RefreshConfirms(m, dir, disk.dir, depth);
      RefreshKeepsKinds(m, dir, disk.dir, depth, dir);
      var m1 := RefreshEntry(m, dir, disk.dir, depth).value.0;
      RelistKeeps(m1, dir, disk.scan);
      assert Lists(n, r.value, n.idToPath[dir].name + [name]);
      if m1.idToPath[dir].IsDirectory() {
        RelistAgrees(m1, dir, disk.scan);
        if Named(disk.scan.items, name) {
          var i := LastListed(disk.scan.items, name);
          RelistBinds(m1, dir, disk.scan, i);
          assert ListedAs(disk.scan.items, i, name, n.idToInode[r.value]);
        } else {
          RelistElsewhere(m1, dir, disk.scan, name);
        }
      }
    }
  }

  /** A replaced file is not mistaken for its predecessor: an id that lookup
      returns stands for an inode the disk reported during this very call, or it
      was cached and the relisting had no say in it. */
  lemma LookupFresh(m: State, dir: FileId, name: Symbol, disk: LookupDisk, depth: nat)
    requires Inv(m) && Lookup(m, dir, name, disk, depth).Some?
    ensures var (n, r) := Lookup(m, dir, name, disk, depth).value;
      r.Ok? ==>
        && r.value in n.idToInode
        && (Witnessed(disk, name, n.idToInode[r.value]) || Leftover(m, n, dir, name, disk.scan, r.value))
  {
    var hit := FindChild(m, dir, name);
    if hit.Ok? && hit.value in m.idToPath {
      RefreshKeeps(m, hit.value, disk.child, depth);
      RefreshUnmaps(m, hit.value, disk.child, depth);
      RefreshConfirms(m, hit.value, disk.child, depth);
      RefreshKeepsKinds(m, hit.value, disk.child, depth, dir);
      var (m1, r) := RefreshEntry(m, hit.value, disk.child, depth).value;
      if r == Ok(Delete) {
        LookupOnDiskFresh(m1, dir, name, disk, depth);
      }
    } else {
      LookupOnDiskFresh(m, dir, name, disk, depth);
    }
  }

  // ---- rename ------------------------------------------------------------

  /** The three stages of a rename in the cache: the target cleared to `c`, the
      paths moved in some order, the children of both directories updated. */
  lemma RenameStages(
    m: State, fromDir: FileId, fromName: Symbol, toDir: FileId, toName: Symbol, n: State, depth: nat)
    returns (c: State, order: seq<Path>, renamed: State)
    requires Inv(m) && fromDir in m.idToPath && toDir in m.idToPath
    requires MovesTo(m, fromDir, fromName, toDir, toName, n, depth)
    requires m.idToPath[fromDir].name + [fromName] in m.pathToId
    ensures var from := m.idToPath[fromDir].name + [fromName]; var to := m.idToPath[toDir].name + [toName];
      && ClearTarget(m, to, depth) == Some(c) && Removal(m, c, to) && to !in c.pathToId
      && IsListing(order, Below(c, from)) && renamed == RenamePrefix(c, from, to, order)
      && n == MoveChild(renamed, fromDir, fromName, toDir, toName, to)
  {
    var from := m.idToPath[fromDir].name + [fromName];
    var to := m.idToPath[toDir].name + [toName];
    ClearTargetKeeps(m, to, depth);
    c := ClearTarget(m, to, depth).value;
    order :| IsListing(order, Below(c, from))
      && n == MoveChild(RenamePrefix(c, from, to, order), fromDir, fromName, toDir, toName, to);
    renamed := RenamePrefix(c, from, to, order);
  }

  lemma MoveChildSameIndex(m: State, fromDir: FileId, fromName: Symbol, toDir: FileId, toName: Symbol, to: Path)
    ensures var n := MoveChild(m, fromDir, fromName, toDir, toName, to);
      && n == m.(idToPath := n.idToPath) && n.idToPath.Keys == m.idToPath.Keys
      && forall id | id in m.idToPath ::
        n.idToPath[id].name == m.idToPath[id].name && n.idToPath[id].aliases == m.idToPath[id].aliases
  {
  }

  /** What the path `p` maps to in `n`, once `m` was cleared to `c` below `to` and
      the subtree at `from` moved there: nothing below the source is left; each path
      below the target has the id of the path it was moved from, or else whatever
      survived the clearing; every other path is as before. */
  ghost predicate SubtreeMoved(m: State, c: State, n: State, from: Path, to: Path, p: Path) {
    if from <= p then p !in n.pathToId
    else if !(to <= p) then SameMapping(m, n, p)
    else if Rebase(p, to, from) in m.pathToId then MapsTo(n, p, m.pathToId[Rebase(p, to, from)])
    else SameMapping(c, n, p)
  }

  lemma OverlayMovesSubtree(m: State, c: State, n: State, from: Path, to: Path, p: Path)
    requires Apart(from, to) && Pruned(m, c, to) && OverlaidAt(c, n, from, to, p)
    ensures SubtreeMoved(m, c, n, from, to, p)
  {
    if to <= p {
      RebaseInverse(p, to, from);
      var q := Rebase(p, to, from);
      if to <= q {
        PrefixesComparable(from, to, q);
        assert false;
      }
      if from <= p {
        PrefixesComparable(from, to, p);
        assert false;
      }
      assert q in m.pathToId <==> q in Below(c, from);
    }
  }

  /** A rename moves the subtree, whatever is cached at and below the target. */
  lemma RenameMovesSubtree(
    m: State, fromDir: FileId, fromName: Symbol, toDir: FileId, toName: Symbol, n: State, depth: nat, p: Path)
    requires Inv(m) && fromDir in m.idToPath && toDir in m.idToPath
    requires MovesTo(m, fromDir, fromName, toDir, toName, n, depth)
    requires var from := m.idToPath[fromDir].name + [fromName];
      from in m.pathToId && Apart(from, m.idToPath[toDir].name + [toName])
    ensures var from := m.idToPath[fromDir].name + [fromName]; var to := m.idToPath[toDir].name + [toName];
      SubtreeMoved(m, ClearTarget(m, to, depth).value, n, from, to, p)
  {
    var from := m.idToPath[fromDir].name + [fromName];
    var to := m.idToPath[toDir].name + [toName];
    var c, order, renamed := RenameStages(m, fromDir, fromName, toDir, toName, n, depth);
    ApartNoChain(c, from, to);
    NoChainOverlays(c, from, to, order);
    assert OverlaidAt(c, renamed, from, to, p);
    OverlayMovesSubtree(m, c, renamed, from, to, p);
    MoveChildSameIndex(renamed, fromDir, fromName, toDir, toName, to);
  }

  lemma DirectoryKeepsName(m: State, c: State, n: State, from: Path, to: Path, dir: FileId)
    requires dir in m.idToPath && Lists(m, dir, m.idToPath[dir].name) && Pruned(m, c, to)
    requires !(to <= m.idToPath[dir].name) && !(from <= m.idToPath[dir].name)
    requires EntriesRelabelled(c, n, from, to)
    ensures dir in n.idToPath && n.idToPath[dir].name == m.idToPath[dir].name
  {
    assert Lists(c, dir, m.idToPath[dir].name);
  }

  /** In particular the target now resolves to the id of the source. */
  lemma RenameThenFind(
    m: State, fromDir: FileId, fromName: Symbol, toDir: FileId, toName: Symbol, n: State, depth: nat)
    requires Inv(m) && fromDir in m.idToPath && toDir in m.idToPath
    requires MovesTo(m, fromDir, fromName, toDir, toName, n, depth)
    requires var from := m.idToPath[fromDir].name + [fromName];
      from in m.pathToId && Apart(from, m.idToPath[toDir].name + [toName])
    ensures FindChild(n, toDir, toName) == Ok(m.pathToId[m.idToPath[fromDir].name + [fromName]])
  {
    var from := m.idToPath[fromDir].name + [fromName];
    var dirPath := m.idToPath[toDir].name;
    var to := dirPath + [toName];
    RenameMovesSubtree(m, fromDir, fromName, toDir, toName, n, depth, to);
    assert Rebase(to, to, from) == from;
    var c, order, renamed := RenameStages(m, fromDir, fromName, toDir, toName, n, depth);
    ApartNoChain(c, from, to);
    NoChainEntries(c, from, to, order);
    assert Lists(m, toDir, dirPath) && !(to <= dirPath);
    assert from <= dirPath ==> from <= to;
    DirectoryKeepsName(m, c, renamed, from, to, toDir);
    MoveChildSameIndex(renamed, fromDir, fromName, toDir, toName, to);
  }

  /** The exact index invariant survives exactly if no moved path lands on a path
      that survived the clearing with another id. */
  lemma RenameExactIffClear(
    m: State, fromDir: FileId, fromName: Symbol, toDir: FileId, toName: Symbol, n: State, depth: nat)
    requires Exact(m) && fromDir in m.idToPath && toDir in m.idToPath
    requires MovesTo(m, fromDir, fromName, toDir, toName, n, depth)
    requires var from := m.idToPath[fromDir].name + [fromName];
      from in m.pathToId && Apart(from, m.idToPath[toDir].name + [toName])
    ensures var from := m.idToPath[fromDir].name + [fromName]; var to := m.idToPath[toDir].name + [toName];
      Exact(n) <==> NoClash(ClearTarget(m, to, depth).value, from, to)
  {
    var from := m.idToPath[fromDir].name + [fromName];
    var to := m.idToPath[toDir].name + [toName];
    var c, order, renamed := RenameStages(m, fromDir, fromName, toDir, toName, n, depth);
    ApartNoChain(c, from, to);
    RenameKeeps(c, from, to, order);
    RenameKeepsExactIff(c, from, to, order);
    MoveChildKeeps(renamed, fromDir, fromName, toDir, toName, to);
    MoveChildSameIndex(renamed, fromDir, fromName, toDir, toName, to);
    assert forall i, p :: Lists(n, i, p) <==> Lists(renamed, i, p);
  }

  /** What is cached below `path` is all reached through cached children that agree with the path map. */
  ghost predicate KnownTree(m: State, path: Path) {
    && (path in m.pathToId ==> Agrees(m, path, m.pathToId[path]))
    && forall p | p in m.pathToId && path <= p :: Reached(m, path, p)
  }

  ghost predicate Reached(m: State, path: Path, p: Path) {
    path in m.pathToId && ReachedFrom(m, path, m.pathToId[path], p)
  }

  /** No moved path lands on a path with another id that the clearing of the target
      does not reach. */
  ghost predicate LandsClear(m: State, from: Path, to: Path) {
    forall p | p in Below(m, from) ::
      var q := Rebase(p, from, to); q in m.pathToId ==> Reached(m, to, q) || m.pathToId[q] == m.pathToId[p]
  }

  lemma ClearedAt(m: State, to: Path, depth: nat, q: Path)
    requires Inv(m) && ClearTarget(m, to, depth).Some? && q in m.pathToId
    requires to in m.pathToId ==> Agrees(m, to, m.pathToId[to])
    ensures q in ClearTarget(m, to, depth).value.pathToId <==> !Reached(m, to, q)
  {
    if to in m.pathToId {
      TreeUnmapsIff(m, to, m.pathToId[to], depth, q);
    }
  }

  lemma LandsClearIff(m: State, from: Path, to: Path, depth: nat)
    requires Inv(m) && Apart(from, to) && ClearTarget(m, to, depth).Some?
    requires to in m.pathToId ==> Agrees(m, to, m.pathToId[to])
    ensures NoClash(ClearTarget(m, to, depth).value, from, to) <==> LandsClear(m, from, to)
  {
    var c := ClearTarget(m, to, depth).value;
    ClearTargetKeeps(m, to, depth);
    forall p | p in m.pathToId && from <= p ensures p in c.pathToId && !(from <= Rebase(p, from, to)) {
      if to <= p {
        PrefixesComparable(from, to, p);
        assert false;
      }
      RebaseInverse(p, from, to);
      if from <= Rebase(p, from, to) {
        PrefixesComparable(from, to, Rebase(p, from, to));
        assert false;
      }
    }
    forall p | p in Below(m, from) && Rebase(p, from, to) in m.pathToId
      ensures Rebase(p, from, to) in c.pathToId <==> !Reached(m, to, Rebase(p, from, to))
    {
      ClearedAt(m, to, depth, Rebase(p, from, to));
    }
    assert Below(c, from) == Below(m, from);
  }

  /** The same before the call: when the children cached below the target agree with
      the path map, the exact form survives exactly if every moved path lands on one
      the clearing reaches, on one of its own id, or on none. */
  lemma RenameExactIffLandsClear(
    m: State, fromDir: FileId, fromName: Symbol, toDir: FileId, toName: Symbol, n: State, depth: nat)
    requires Exact(m) && fromDir in m.idToPath && toDir in m.idToPath
    requires MovesTo(m, fromDir, fromName, toDir, toName, n, depth)
    requires var from := m.idToPath[fromDir].name + [fromName]; var to := m.idToPath[toDir].name + [toName];
      from in m.pathToId && Apart(from, to) && (to in m.pathToId ==> Agrees(m, to, m.pathToId[to]))
    ensures var from := m.idToPath[fromDir].name + [fromName]; var to := m.idToPath[toDir].name + [toName];
      Exact(n) <==> LandsClear(m, from, to)
  {
    var from := m.idToPath[fromDir].name + [fromName];
    var to := m.idToPath[toDir].name + [toName];
    RenameExactIffClear(m, fromDir, fromName, toDir, toName, n, depth);
    LandsClearIff(m, from, to, depth);
  }

  /** A known target is cleared completely. */
  lemma KnownTreeCleared(m: State, to: Path, depth: nat)
    requires Inv(m) && KnownTree(m, to) && ClearTarget(m, to, depth).Some?
    ensures forall p | p in ClearTarget(m, to, depth).value.pathToId :: !(to <= p)
  {
    var c := ClearTarget(m, to, depth).value;
    ClearTargetKeeps(m, to, depth);
    if to in m.pathToId {
      var id := m.pathToId[to];
      ChildClears(m, to, id, depth);
      forall p | p in m.pathToId && to <= p ensures p !in c.pathToId {
        assert Reached(m, to, p) && to + p[|to|..] == p;
      }
    }
  }

  /** Then the rename is exact: the paths below the target are those moved there,
      and the exact index invariant survives. */
  lemma RenameOntoKnownTree(
    m: State, fromDir: FileId, fromName: Symbol, toDir: FileId, toName: Symbol, n: State, depth: nat, p: Path)
    requires Inv(m) && fromDir in m.idToPath && toDir in m.idToPath
    requires MovesTo(m, fromDir, fromName, toDir, toName, n, depth)
    requires var from := m.idToPath[fromDir].name + [fromName];
      from in m.pathToId && Apart(from, m.idToPath[toDir].name + [toName])
    requires KnownTree(m, m.idToPath[toDir].name + [toName])
    ensures var from := m.idToPath[fromDir].name + [fromName]; var to := m.idToPath[toDir].name + [toName];
      && (to <= p ==> (p in n.pathToId <==> Rebase(p, to, from) in m.pathToId))
      && (Exact(m) ==> Exact(n))
  {
    var from := m.idToPath[fromDir].name + [fromName];
    var to := m.idToPath[toDir].name + [toName];
    var c, order, renamed := RenameStages(m, fromDir, fromName, toDir, toName, n, depth);
    KnownTreeCleared(m, to, depth);
    RenameMovesSubtree(m, fromDir, fromName, toDir, toName, n, depth, p);
    if from <= p && to <= p {
      PrefixesComparable(from, to, p);
      assert false;
    }
    if Exact(m) {
      forall q | q in Below(c, from) ensures Rebase(q, from, to) !in c.pathToId {
        RebaseInverse(q, from, to);
      }
      RenameExactIffClear(m, fromDir, fromName, toDir, toName, n, depth);
    }
  }

  // ---- readdir -----------------------------------------------------------

  ghost predicate ListsChild(m: State, dir: FileId, name: Symbol, entry: DirEntry) {
    && entry.name == Child(name) && FindChild(m, dir, name) == Ok(entry.fileid)
    && entry.fileid in m.idToPath && entry.attr == m.idToPath[entry.fileid].fsmeta.(fileid := entry.fileid)
  }

  lemma {:induction false} ListChildrenAll(
    m: State, dir: FileId, children: map<Symbol, FileId>, names: seq<Symbol>, listed: seq<DirEntry>)
    requires forall s | s in names :: s in children
    requires forall s | s in names :: FindChild(m, dir, s) == Ok(children[s]) && children[s] in m.idToPath
    ensures var r := ListChildren(m, children, names, listed);
      && r.Ok? && |r.value| == |listed| + |names| && r.value[..|listed|] == listed
      && forall i | 0 <= i < |names| :: ListsChild(m, dir, names[i], r.value[|listed| + i])
    decreases names
  {
    if names != [] {
      var id := children[names[0]];
      var entry := DirEntry(id, Child(names[0]), m.idToPath[id].fsmeta.(fileid := id));
      ListChildrenAll(m, dir, children, names[1..], listed + [entry]);
      var r := ListChildren(m, children, names, listed);
      assert r.value[..|listed| + 1] == listed + [entry];
      assert r.value[|listed|] == entry && r.value[..|listed|] == (listed + [entry])[..|listed|];
      forall i | 0 <= i < |names| ensures ListsChild(m, dir, names[i], r.value[|listed| + i]) {
        if i > 0 {
          assert names[1..][i - 1] == names[i];
          assert r.value[|listed| + 1 + (i - 1)] == r.value[|listed| + i];
        }
      }
    }
  }

  ghost predicate ParentMapped(m: State, dir: FileId)
    requires dir in m.idToPath
  {
    var name := m.idToPath[dir].name;
    name == [] || name[..|name| - 1] in m.pathToId
  }

  /** The id that the path of the directory's parent maps to; the root is its own parent. */
  ghost function ParentOf(m: State, dir: FileId): FileId
    requires dir in m.idToPath && ParentMapped(m, dir)
  {
    var name := m.idToPath[dir].name;
    if name == [] then dir else m.pathToId[name[..|name| - 1]]
  }

  ghost predicate ListsAs(m: State, entry: DirEntry, id: FileId, name: DirName) {
    && entry.fileid == id && entry.name == name
    && id in m.idToPath && entry.attr == m.idToPath[id].fsmeta.(fileid := id)
  }

  /** The listing of a directory all of whose cached children resolve: itself, its
      parent, then each child once. */
  ghost predicate ListsAll(m: State, dir: FileId, names: seq<Symbol>, listed: seq<DirEntry>) {
    && dir in m.idToPath && ParentMapped(m, dir) && |listed| == 2 + |names|
    && ListsAs(m, listed[0], dir, Dot) && ListsAs(m, listed[1], ParentOf(m, dir), DotDot)
    && (forall i | 0 <= i < |names| :: ListsChild(m, dir, names[i], listed[2 + i]))
  }

  lemma ListingListsAll(m: State, dir: FileId)
    requires Inv(m) && dir in m.idToPath && m.idToPath[dir].IsDirectory() && m.idToPath[dir].children.Some?
    requires var children := m.idToPath[dir].children.value;
      forall s | s in children :: FindChild(m, dir, s) == Ok(children[s]) && children[s] in m.idToPath
    ensures var r := Listing(m, dir);
      && (r.Ok? <==> ParentMapped(m, dir))
      && (r.Ok? ==> ListsAll(m, dir, Ascending(m.idToPath[dir].children.value.Keys), r.value))
  {
    var e := m.idToPath[dir];
    var names := Ascending(e.children.value.Keys);
    if ParentMapped(m, dir) {
      var parentPath := if e.name == [] then [] else e.name[..|e.name| - 1];
      var parent := if e.name == [] then dir else m.pathToId[parentPath];
      assert e.name != [] ==> Lists(m, parent, parentPath);
      var self := DirEntry(dir, Dot, e.fsmeta.(fileid := dir));
      var up := DirEntry(parent, DotDot, m.idToPath[parent].fsmeta.(fileid := parent));
      ListChildrenAll(m, dir, e.children.value, names, [self, up]);
      var r := Listing(m, dir);
      assert r.value[..2] == [self, up];
      assert r.value[0] == r.value[..2][0] && r.value[1] == r.value[..2][1];
    }
  }

  /** After a relisting the full listing is the directory itself, its parent and
      every listed name once in symbol order, each with the id it resolves to;
      it fails exactly when the parent's path is not cached. */
  lemma ListingComplete(m: State, dir: FileId, scan: Scan)
    requires Inv(m) && Relisted(m, dir, scan)
    ensures var n := RefreshDirList(m, dir, scan).0; var r := Listing(n, dir);
      && dir in n.idToPath && (n.idToPath[dir].IsDirectory() ==> (r.Ok? <==> ParentMapped(n, dir)))
      && (r.Ok? ==>
        var names := Ascending(KnownChildren(n.idToPath[dir]));
        ListsAll(n, dir, names, r.value) && forall s :: s in names <==> Named(scan.items, s))
  {
    var n := RefreshDirList(m, dir, scan).0;
    RelistKeeps(m, dir, scan);
    RelistAgrees(m, dir, scan);
    if n.idToPath[dir].IsDirectory() {
      ListingListsAll(n, dir);
    }
  }
}
