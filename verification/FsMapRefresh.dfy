/** refresh_entry and refresh_dir_list against arbitrary disk answers. */
module FsMapRefresh {
  import opened Wrappers
  import opened Ordered
  import opened FsMapState
  import opened FsMapInvariant
  import opened FsMapTree

  // ---- refresh_entry -----------------------------------------------------

  lemma KeepPresentKeeps(m: State, id: FileId, present: set<Path>)
    requires Inv(m) && id in m.idToPath
    ensures Inv(KeepPresent(m, id, present)) && Stable(m, KeepPresent(m, id, present))
  {
    var e := m.idToPath[id];
    var n := KeepPresent(m, id, present);
    forall p | p in n.pathToId ensures Lists(n, n.pathToId[p], p) {
      assert Lists(m, m.pathToId[p], p);
    }
    forall i | i in n.idToPath ensures Lists(n, i, n.idToPath[i].name) {
      assert Lists(m, i, m.idToPath[i].name);
    }
  }

  lemma KeepPresentKeepsBackward(m: State, id: FileId, present: set<Path>)
    requires Exact(m) && id in m.idToPath && m.idToPath[id].aliases * present != {}
    ensures Backward(KeepPresent(m, id, present))
  {
    var e := m.idToPath[id];
    var n := KeepPresent(m, id, present);
    forall i, p | Lists(n, i, p) ensures p in n.pathToId && n.pathToId[p] == i {
      assert Lists(m, i, p);
      assert p in e.aliases ==> Lists(m, id, p);
    }
  }

  lemma DeleteEntryRemoval(m: State, id: FileId, depth: nat)
    requires Inv(m) && id in m.idToPath && DeleteEntry(m, id, depth).Some?
    ensures Removal(m, DeleteEntry(m, id, depth).value, m.idToPath[id].name)
  {
    TreeRemoval(m, m.idToPath[id].name, id, depth);
  }

  lemma RekeyNoop(m: State, id: FileId, inode: InodeKey)
    requires InodesInverse(m) && id in m.idToInode && m.idToInode[id] == inode
    ensures m.idToInode[id := inode] == m.idToInode && m.inodeToId[inode := id] == m.inodeToId
  {
  }

  /** A returning refresh does one of three things once absent aliases are dropped. */
  lemma RefreshShape(m: State, id: FileId, probe: Probe, depth: nat)
    requires Inv(m) && id in m.idToPath && RefreshEntry(m, id, probe, depth).Some?
    ensures var n := RefreshEntry(m, id, probe, depth).value.0; var kept := KeepPresent(m, id, probe.present);
      || n == kept
      || (probe.meta.Some? && probe.meta.value.ftype == m.idToPath[id].fsmeta.ftype
        && n == SetMeta(kept, id, ToAttr(id, probe.meta.value)))
      || DeleteEntry(kept, id, depth) == Some(n)
  {
    var kept := KeepPresent(m, id, probe.present);
    KeepPresentKeeps(m, id, probe.present);
    if probe.meta.Some? && kept.idToInode[id] == probe.meta.value.inode {
      RekeyNoop(kept, id, probe.meta.value.inode);
    }
  }

  /** The index invariant survives every refresh that returns, whatever the disk says. */
  lemma RefreshKeeps(m: State, id: FileId, probe: Probe, depth: nat)
    requires Inv(m) && RefreshEntry(m, id, probe, depth).Some?
    ensures var n := RefreshEntry(m, id, probe, depth).value.0; Inv(n) && Stable(m, n)
  {
    if id in m.idToPath {
      var kept := KeepPresent(m, id, probe.present);
      KeepPresentKeeps(m, id, probe.present);
      RefreshShape(m, id, probe, depth);
      if DeleteEntry(kept, id, depth).Some? {
        DeleteEntryRemoval(kept, id, depth);
      }
      if probe.meta.Some? {
        SetMetaKeeps(kept, id, ToAttr(id, probe.meta.value));
      }
    }
  }

  /** A refresh maps no new path and unmaps every alias the disk no longer has. */
  lemma RefreshUnmaps(m: State, id: FileId, probe: Probe, depth: nat)
    requires Inv(m) && id in m.idToPath && RefreshEntry(m, id, probe, depth).Some?
    ensures var n := RefreshEntry(m, id, probe, depth).value.0;
      && (forall p | p in n.pathToId :: p in m.pathToId && n.pathToId[p] == m.pathToId[p])
      && (forall p | p in m.idToPath[id].aliases && p !in probe.present :: p !in n.pathToId)
  {
    var kept := KeepPresent(m, id, probe.present);
    KeepPresentKeeps(m, id, probe.present);
    RefreshShape(m, id, probe, depth);
    if DeleteEntry(kept, id, depth).Some? {
      DeleteEntryRemoval(kept, id, depth);
    }
  }

  /** Reload and Noop mean what they say: the id is live, still bound to the
      inode the disk reports, at a path that exists, with current attributes. */
  lemma RefreshConfirms(m: State, id: FileId, probe: Probe, depth: nat)
    requires Inv(m) && RefreshEntry(m, id, probe, depth).Some?
    ensures var (n, r) := RefreshEntry(m, id, probe, depth).value;
      r == Ok(Reload) || r == Ok(Noop) ==>
        && id in n.idToPath && probe.meta.Some?
        && id in n.idToInode && n.idToInode[id] == probe.meta.value.inode
        && IsLeast(n.idToPath[id].name, m.idToPath[id].aliases * probe.present)
        && !Differ(n.idToPath[id].fsmeta, ToAttr(id, probe.meta.value))
  {
  }

  // ---- where the exact form breaks ---------------------------------------

  ghost predicate Unmapped(m: State, id: FileId) {
    forall p | p in m.pathToId :: m.pathToId[p] != id
  }

  lemma {:induction false} UnmappedUntouched(m: State, path: Path, dir: FileId, depth: nat, id: FileId)
    requires Unmapped(m, id) && id in m.idToPath && RemoveTree(m, path, dir, depth).Some?
    ensures var n := RemoveTree(m, path, dir, depth).value;
      Unmapped(n, id) && id in n.idToPath && n.idToPath[id] == m.idToPath[id]
    decreases depth, 0, 0
  {
    if dir in m.idToPath {
      var e := m.idToPath[dir];
      if e.IsDirectory() && e.children.Some? {
        UnmappedThroughChildren(m, path, e.children.value, Ascending(e.children.value.Keys), depth - 1, id);
      }
    }
  }

  lemma {:induction false} UnmappedThroughChildren(
    m: State, path: Path, children: map<Symbol, FileId>, names: seq<Symbol>, depth: nat, id: FileId)
    requires forall s | s in names :: s in children
    requires Unmapped(m, id) && id in m.idToPath && RemoveChildren(m, path, children, names, depth).Some?
    ensures var n := RemoveChildren(m, path, children, names, depth).value;
      Unmapped(n, id) && id in n.idToPath && n.idToPath[id] == m.idToPath[id]
    decreases depth, |names|
  {
    if names != [] {
      var child := children[names[0]];
      if child in m.idToPath && m.idToPath[child].IsDirectory() {
        UnmappedUntouched(m, path + [names[0]], child, depth, id);
      }
      UnmappedThroughChildren(
        RemoveChild(m, path + [names[0]], child, depth).value, path, children, names[1..], depth, id);
    }
  }

  /** With no alias left on disk the answer is Delete, yet the id stays live with all its aliases. */
  lemma GoneYetLive(m: State, id: FileId, probe: Probe, depth: nat)
    requires Inv(m) && id in m.idToPath && RefreshEntry(m, id, probe, depth).Some?
    requires m.idToPath[id].aliases * probe.present == {}
    ensures var (n, r) := RefreshEntry(m, id, probe, depth).value;
      && r == Ok(Delete) && Unmapped(n, id)
      && id in n.idToPath && n.idToPath[id] == m.idToPath[id]
  {
    var kept := KeepPresent(m, id, probe.present);
    var present := probe.present;
    assert forall p | p in present && p in m.idToPath[id].aliases :: p in m.idToPath[id].aliases * present;
    assert Unmapped(kept, id) by {
      forall p | p in kept.pathToId ensures kept.pathToId[p] != id {
        assert Lists(m, m.pathToId[p], p);
        assert p in present ==> p !in m.idToPath[id].aliases;
      }
    }
    UnmappedUntouched(kept, kept.idToPath[id].name, id, depth, id);
  }

  /** The exact index invariant survives a refresh exactly when some alias still exists on disk. */
  lemma RefreshExactIff(m: State, id: FileId, probe: Probe, depth: nat)
    requires Exact(m) && id in m.idToPath && RefreshEntry(m, id, probe, depth).Some?
    ensures Exact(RefreshEntry(m, id, probe, depth).value.0) <==> m.idToPath[id].aliases * probe.present != {}
  {
    var n := RefreshEntry(m, id, probe, depth).value.0;
    RefreshKeeps(m, id, probe, depth);
    if m.idToPath[id].aliases * probe.present == {} {
      GoneYetLive(m, id, probe, depth);
      assert Lists(m, id, m.idToPath[id].name);
      assert Lists(n, id, m.idToPath[id].name);
    } else {
      PresentKeepsExact(m, id, probe, depth);
    }
  }

  lemma PresentKeepsExact(m: State, id: FileId, probe: Probe, depth: nat)
    requires Exact(m) && id in m.idToPath && RefreshEntry(m, id, probe, depth).Some?
    requires m.idToPath[id].aliases * probe.present != {}
    ensures Backward(RefreshEntry(m, id, probe, depth).value.0)
  {
    var kept := KeepPresent(m, id, probe.present);
    KeepPresentKeeps(m, id, probe.present);
    KeepPresentKeepsBackward(m, id, probe.present);
    RefreshShape(m, id, probe, depth);
    if DeleteEntry(kept, id, depth).Some? {
      DeleteEntryRemoval(kept, id, depth);
    }
    if probe.meta.Some? {
      SetMetaKeeps(kept, id, ToAttr(id, probe.meta.value));
    }
  }

  lemma DeleteShape(m: State, id: FileId, probe: Probe, depth: nat)
    requires Inv(m) && id in m.idToPath && RefreshEntry(m, id, probe, depth).Some?
    requires RefreshEntry(m, id, probe, depth).value.1 == Ok(Delete)
    ensures DeleteEntry(KeepPresent(m, id, probe.present), id, depth)
      == Some(RefreshEntry(m, id, probe, depth).value.0)
  {
    var kept := KeepPresent(m, id, probe.present);
    KeepPresentKeeps(m, id, probe.present);
    if probe.meta.Some? && kept.idToInode[id] == probe.meta.value.inode {
      RekeyNoop(kept, id, probe.meta.value.inode);
    }
  }

  /** A directory with cached children, the only kind of entry whose removal goes below its path. */
  ghost predicate HasTree(e: FSEntry) {
    e.IsDirectory() && KnownChildren(e) != {}
  }

  lemma LeafRemoval(m: State, path: Path, id: FileId, depth: nat)
    requires id in m.idToPath && !HasTree(m.idToPath[id]) && RemoveTree(m, path, id, depth).Some?
    ensures RemoveTree(m, path, id, depth) == Some(RemovePath(m, path))
  {
    var e := m.idToPath[id];
    if e.IsDirectory() && e.children.Some? {
      assert Ascending(e.children.value.Keys) == [];
    }
  }

  /** Deleting an id whose other aliases stay, because nothing below its primary
      path goes or because they lie elsewhere, forgets it exactly when there are none. */
  lemma DeleteKeepsOthers(m: State, id: FileId, depth: nat)
    requires Exact(m) && id in m.idToPath && DeleteEntry(m, id, depth).Some?
    requires HasTree(m.idToPath[id]) ==>
      forall q | q in m.idToPath[id].aliases && m.idToPath[id].name <= q :: q == m.idToPath[id].name
    ensures id !in DeleteEntry(m, id, depth).value.idToPath <==> m.idToPath[id].aliases == {m.idToPath[id].name}
  {
    var e := m.idToPath[id];
    var n := DeleteEntry(m, id, depth).value;
    TreeRemoval(m, e.name, id, depth);
    assert Lists(m, id, e.name);
    if !HasTree(e) {
      LeafRemoval(m, e.name, id, depth);
    } else {
      if q :| q in e.aliases && q != e.name {
        assert Lists(m, id, q) && Lists(n, id, q);
      }
      if id in n.idToPath {
        assert Lists(n, id, n.idToPath[id].name);
      }
    }
  }

  /** The answer Delete really forgets the id exactly when one single alias of it
      still exists on disk; for a directory with cached children, given that none
      lies below the first that exists. */
  lemma DeleteForgetsIff(m: State, id: FileId, probe: Probe, depth: nat)
    requires Exact(m) && id in m.idToPath && RefreshEntry(m, id, probe, depth).Some?
    requires HasTree(m.idToPath[id]) ==>
      var present := m.idToPath[id].aliases * probe.present;
      forall p, q | p in present && q in present && IsLeast(p, present) && p <= q :: p == q
    requires RefreshEntry(m, id, probe, depth).value.1 == Ok(Delete)
    ensures var n := RefreshEntry(m, id, probe, depth).value.0;
      id !in n.idToPath <==> exists p :: m.idToPath[id].aliases * probe.present == {p}
  {
    var present := m.idToPath[id].aliases * probe.present;
    if present == {} {
      GoneYetLive(m, id, probe, depth);
    } else {
      var kept := KeepPresent(m, id, probe.present);
      KeepPresentKeeps(m, id, probe.present);
      KeepPresentKeepsBackward(m, id, probe.present);
      DeleteShape(m, id, probe, depth);
      DeleteKeepsOthers(kept, id, depth);
    }
  }

  // ---- refresh_dir_list --------------------------------------------------

  /** A live id keeps its entry's name and cached children. */
  ghost predicate DirStays(m: State, n: State, id: FileId) {
    && id in m.idToPath && id in n.idToPath
    && n.idToPath[id].name == m.idToPath[id].name && n.idToPath[id].children == m.idToPath[id].children
  }

  lemma RemoveOtherStays(m: State, path: Path, id: FileId)
    requires Inv(m) && id in m.idToPath && path != m.idToPath[id].name
    ensures DirStays(m, RemovePath(m, path), id)
  {
    assert Lists(m, id, m.idToPath[id].name);
    if path in m.pathToId && m.pathToId[path] == id {
      assert m.idToPath[id].name in m.idToPath[id].aliases - {path};
    }
  }

  lemma AttachOtherStays(m: State, path: Path, meta: Meta, id: FileId)
    requires id in m.idToPath && id < m.nextFileid
    ensures DirStays(m, Attach(m, path, meta).0, id)
  {
  }

  lemma CreateOtherStays(m: State, path: Path, meta: Meta, id: FileId)
    requires Inv(m) && id in m.idToPath && path != m.idToPath[id].name
    ensures DirStays(m, CreateEntry(m, path, meta).0, id)
  {
    var d := Detach(m, path, meta.inode);
    RemoveOtherStays(m, path, id);
    assert DirStays(m, d, id) && d.nextFileid == m.nextFileid;
    if path !in d.pathToId {
      AttachOtherStays(d, path, meta, id);
    }
  }

  lemma {:induction false} ScanKeeps(m: State, id: FileId, dir: Path, items: seq<Listed>, found: map<Symbol, FileId>)
    requires Inv(m) && id in m.idToPath && m.idToPath[id].name == dir
    ensures var n := ScanItems(m, dir, items, found).0;
      Kept(m, n) && DirStays(m, n, id)
    decreases items
  {
    if items != [] && items[0].meta.Some? {
      var path, meta := dir + [items[0].name], items[0].meta.value;
      var (m1, child) := CreateEntry(m, path, meta);
      CreateEntryKeeps(m, path, meta);
      CreateOtherStays(m, path, meta, id);
      ScanKeeps(m1, id, dir, items[1..], found[items[0].name := child]);
      KeptTransitive(m, m1, ScanItems(m, dir, items, found).0);
    }
  }

  ghost predicate Named(items: seq<Listed>, s: Symbol) {
    exists i :: 0 <= i < |items| && items[i].name == s
  }

  lemma NamedFirst(items: seq<Listed>, s: Symbol)
    requires items != []
    ensures Named(items, s) <==> s == items[0].name || Named(items[1..], s)
  {
    if i :| 0 < i < |items| && items[i].name == s {
      assert items[1..][i - 1].name == s;
    }
    if i :| 0 <= i < |items[1..]| && items[1..][i].name == s {
      assert items[i + 1].name == s;
    }
  }

  /** A completed scan maps each listed name to the id it found and no other path. */
  lemma {:induction false} ScanMaps(m: State, dir: Path, items: seq<Listed>, found: map<Symbol, FileId>)
    requires Inv(m) && ScanItems(m, dir, items, found).1.Ok?
    requires forall s | s in found :: dir + [s] in m.pathToId && m.pathToId[dir + [s]] == found[s]
    ensures var (n, r) := ScanItems(m, dir, items, found);
      && (forall s | s in r.value :: dir + [s] in n.pathToId && n.pathToId[dir + [s]] == r.value[s])
      && (forall s :: s in r.value <==> s in found || Named(items, s))
    decreases items
  {
    if items != [] {
      var path, meta := dir + [items[0].name], items[0].meta.value;
      var (m1, child) := CreateEntry(m, path, meta);
      CreateEntryKeeps(m, path, meta);
      CreateEntryMaps(m, path, meta);
      var found1 := found[items[0].name := child];
      forall s | s in found1 ensures dir + [s] in m1.pathToId && m1.pathToId[dir + [s]] == found1[s] {
        assert (dir + [s])[|dir|] == s && path[|dir|] == items[0].name;
      }
      ScanMaps(m1, dir, items[1..], found1);
      forall s ensures Named(items, s) <==> s == items[0].name || Named(items[1..], s) {
        NamedFirst(items, s);
      }
    }
  }

  /** The scan leaves the mapping of every path it does not list alone. */
  lemma {:induction false} ScanElsewhere(m: State, dir: Path, items: seq<Listed>, found: map<Symbol, FileId>, p: Path)
    requires Inv(m) && forall i | 0 <= i < |items| :: p != dir + [items[i].name]
    ensures var n := ScanItems(m, dir, items, found).0;
      (p in n.pathToId <==> p in m.pathToId) && (p in m.pathToId ==> n.pathToId[p] == m.pathToId[p])
    decreases items
  {
    if items != [] && items[0].meta.Some? {
      var path, meta := dir + [items[0].name], items[0].meta.value;
      var (m1, child) := CreateEntry(m, path, meta);
      CreateEntryKeeps(m, path, meta);
      CreateEntryMaps(m, path, meta);
      ScanElsewhere(m1, dir, items[1..], found[items[0].name := child], p);
    }
  }

  /** The id recorded for a name is bound to the inode of that name's last listing. */
  lemma {:induction false} ScanBinds(
    m: State, id: FileId, dir: Path, items: seq<Listed>, found: map<Symbol, FileId>, i: nat)
    requires Inv(m) && id in m.idToPath && m.idToPath[id].name == dir
    requires ScanItems(m, dir, items, found).1.Ok?
    requires i < |items| && forall j | i < j < |items| :: items[j].name != items[i].name
    ensures var (n, r) := ScanItems(m, dir, items, found); var path := dir + [items[i].name];
      && items[i].meta.Some? && path in n.pathToId
      && n.pathToId[path] in n.idToInode && n.idToInode[n.pathToId[path]] == items[i].meta.value.inode
    decreases items
  {
    var path, meta := dir + [items[0].name], items[0].meta.value;
    var (m1, child) := CreateEntry(m, path, meta);
    CreateEntryKeeps(m, path, meta);
    CreateOtherStays(m, path, meta, id);
    var found1 := found[items[0].name := child];
    if i > 0 {
      ScanBinds(m1, id, dir, items[1..], found1, i - 1);
    } else {
      CreateEntryMaps(m, path, meta);
      CreateEntryBinds(m, path, meta);
      forall j | 0 <= j < |items[1..]| ensures path != dir + [items[1..][j].name] {
        assert items[1..][j] == items[j + 1];
        assert path[|dir|] == items[0].name && (dir + [items[j + 1].name])[|dir|] == items[j + 1].name;
      }
      ScanElsewhere(m1, dir, items[1..], found1, path);
      ScanKeeps(m1, id, dir, items[1..], found1);
      var n := ScanItems(m, dir, items, found).0;
      assert Lists(n, n.pathToId[path], path);
    }
  }

  lemma {:induction false} DropKeeps(m: State, id: FileId, dir: Path, names: seq<Symbol>, found: map<Symbol, FileId>)
    requires Inv(m) && id in m.idToPath && m.idToPath[id].name == dir
    ensures var n := DropAbsent(m, dir, names, found);
      Kept(m, n) && DirStays(m, n, id)
    decreases names
  {
    if names != [] {
      RemovePathKeeps(m, dir + [names[0]]);
      RemoveOtherStays(m, dir + [names[0]], id);
      var m1 := if names[0] in found then m else RemovePath(m, dir + [names[0]]);
      DropKeeps(m1, id, dir, names[1..], found);
      KeptTransitive(m, m1, DropAbsent(m, dir, names, found));
    }
  }

  lemma {:induction false} DropMaps(m: State, dir: Path, names: seq<Symbol>, found: map<Symbol, FileId>)
    ensures var n := DropAbsent(m, dir, names, found);
      && (forall s | s in names && s !in found :: dir + [s] !in n.pathToId)
      && (forall s | s in found && dir + [s] in m.pathToId ::
        dir + [s] in n.pathToId && n.pathToId[dir + [s]] == m.pathToId[dir + [s]])
      && (forall p | p in n.pathToId :: p in m.pathToId && n.pathToId[p] == m.pathToId[p])
    decreases names
  {
    if names != [] {
      var m1 := if names[0] in found then m else RemovePath(m, dir + [names[0]]);
      RemovePathUnmaps(m, dir + [names[0]]);
      DropMaps(m1, dir, names[1..], found);
      forall s | s in found && dir + [s] in m.pathToId
        ensures dir + [s] in m1.pathToId && m1.pathToId[dir + [s]] == m.pathToId[dir + [s]]
      {
        assert (dir + [s])[|dir|] == s && (dir + [names[0]])[|dir|] == names[0];
      }
      assert forall s | s in names :: s == names[0] || s in names[1..];
    }
  }

  lemma {:induction false} DropsNone(m: State, dir: Path, names: seq<Symbol>, found: map<Symbol, FileId>)
    requires forall s | s in names :: s in found
    ensures DropAbsent(m, dir, names, found) == m
  {
    if names != [] {
      assert names[0] in names;
      DropsNone(m, dir, names[1..], found);
    }
  }

  lemma RecordChildrenKeeps(m: State, id: FileId, found: map<Symbol, FileId>)
    requires Inv(m)
    ensures Kept(m, RecordChildren(m, id, found))
  {
    var n := RecordChildren(m, id, found);
    assert forall i, p :: Lists(n, i, p) <==> Lists(m, i, p);
  }

  /** The index invariant, in either form, survives every relisting, also one cut short by an error. */
  lemma RelistKeeps(m: State, id: FileId, scan: Scan)
    requires Inv(m)
    ensures Kept(m, RefreshDirList(m, id, scan).0)
  {
    if id in m.idToPath && m.idToPath[id].IsDirectory() && scan.Opened? {
      var e := m.idToPath[id];
      ScanKeeps(m, id, e.name, scan.items, map[]);
      var (scanned, r) := ScanItems(m, e.name, scan.items, map[]);
      if r.Ok? && scan.fault.None? {
        var names := Ascending(KnownChildren(e));
        DropKeeps(scanned, id, e.name, names, r.value);
        var dropped := DropAbsent(scanned, e.name, names, r.value);
        RecordChildrenKeeps(dropped, id, r.value);
        KeptTransitive(m, scanned, dropped);
        KeptTransitive(m, dropped, RecordChildren(dropped, id, r.value));
      }
    }
  }

  ghost predicate Relisted(m: State, id: FileId, scan: Scan) {
    id in m.idToPath && m.idToPath[id].IsDirectory() && scan.Opened? && RefreshDirList(m, id, scan).1.Ok?
  }

  /** After a successful relisting the cache agrees with the listing: the cached
      children are exactly the listed names, each resolves to its recorded live
      id, and a child cached before but not listed no longer resolves. */
  lemma RelistAgrees(m: State, id: FileId, scan: Scan)
    requires Inv(m) && Relisted(m, id, scan)
    ensures var n := RefreshDirList(m, id, scan).0;
      && id in n.idToPath && n.idToPath[id].name == m.idToPath[id].name && n.idToPath[id].children.Some?
      && var children := n.idToPath[id].children.value;
      && (forall s :: s in children <==> Named(scan.items, s))
      && (forall s | s in children :: FindChild(n, id, s) == Ok(children[s]) && children[s] in n.idToPath)
      && (forall s | s in KnownChildren(m.idToPath[id]) && !Named(scan.items, s) :: FindChild(n, id, s) == Error(NoEnt))
  {
    var e := m.idToPath[id];
    var (scanned, r) := ScanItems(m, e.name, scan.items, map[]);
    var names := Ascending(KnownChildren(e));
    var dropped := DropAbsent(scanned, e.name, names, r.value);
    ScanKeeps(m, id, e.name, scan.items, map[]);
    ScanMaps(m, e.name, scan.items, map[]);
    DropKeeps(scanned, id, e.name, names, r.value);
    DropMaps(scanned, e.name, names, r.value);
    RelistKeeps(m, id, scan);
    var n := RefreshDirList(m, id, scan).0;
    forall s | s in r.value ensures r.value[s] in n.idToPath {
      assert Lists(n, n.pathToId[e.name + [s]], e.name + [s]);
    }
  }

  /** A name the scan missed resolves, if at all, as it did before, and only if it
      was no cached child. */
  lemma RelistElsewhere(m: State, id: FileId, scan: Scan, s: Symbol)
    requires Inv(m) && Relisted(m, id, scan) && !Named(scan.items, s)
    ensures var r := FindChild(RefreshDirList(m, id, scan).0, id, s);
      r.Ok? ==> r == FindChild(m, id, s) && s !in KnownChildren(m.idToPath[id])
  {
    var e := m.idToPath[id];
    var path := e.name + [s];
    RelistAgrees(m, id, scan);
    forall i | 0 <= i < |scan.items| ensures path != e.name + [scan.items[i].name] {
      assert path[|e.name|] == s && (e.name + [scan.items[i].name])[|e.name|] == scan.items[i].name;
    }
    ScanElsewhere(m, e.name, scan.items, map[], path);
    var (scanned, r) := ScanItems(m, e.name, scan.items, map[]);
    DropMaps(scanned, e.name, Ascending(KnownChildren(e)), r.value);
  }

  /** Each recorded id is bound to the inode its name was last listed with. */
  lemma RelistBinds(m: State, id: FileId, scan: Scan, i: nat)
    requires Inv(m) && Relisted(m, id, scan)
    requires i < |scan.items| && forall j | i < j < |scan.items| :: scan.items[j].name != scan.items[i].name
    ensures var n := RefreshDirList(m, id, scan).0; var r := FindChild(n, id, scan.items[i].name);
      && scan.items[i].meta.Some? && r.Ok?
      && r.value in n.idToInode && n.idToInode[r.value] == scan.items[i].meta.value.inode
  {
    var e := m.idToPath[id];
    var s := scan.items[i].name;
    var (scanned, r) := ScanItems(m, e.name, scan.items, map[]);
    var names := Ascending(KnownChildren(e));
    var dropped := DropAbsent(scanned, e.name, names, r.value);
    ScanKeeps(m, id, e.name, scan.items, map[]);
    ScanMaps(m, e.name, scan.items, map[]);
    ScanBinds(m, id, e.name, scan.items, map[], i);
    assert Named(scan.items, s);
    DropKeeps(scanned, id, e.name, names, r.value);
    DropMaps(scanned, e.name, names, r.value);
    assert Lists(dropped, dropped.pathToId[e.name + [s]], e.name + [s]);
  }
}
